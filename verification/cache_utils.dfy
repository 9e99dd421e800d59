/** The OCR result cache: a table of `CacheEntry` rows keyed by the SHA-256
    of a PDF's bytes, plus the chunked hashing that produces the key. The
    SQLite table is modelled as a map from hash to row; a cache that is
    switched off, or whose directory could not be created, is the same
    value with `enabled` false, and every operation on it is a no-op. */
module CacheUtils {
  import opened Wrappers
  import opened Paths
  import opened Files
  import Text

  /** One cached OCR result; the fields mirror the table's columns. */
  datatype CacheEntry = CacheEntry(
    pdfHash: string,
    filename: string,
    sourcePath: string,
    sizeBytes: int,
    markdownContent: string,
    createdAt: string,
    lastAccessed: string,
    mistralModel: string)

  datatype Cache = Cache(enabled: bool, entries: map<string, CacheEntry>)

  /** The table's primary key is `pdf_hash`: every row sits under its own hash. */
  predicate Keyed(entries: map<string, CacheEntry>)
  {
    forall h :: h in entries ==> entries[h].pdfHash == h
  }

  /** The invariant every cache value keeps: rows are keyed by their hash, and
      a disabled cache holds nothing. */
  predicate Valid(c: Cache)
  {
    Keyed(c.entries) && (!c.enabled ==> c.entries == map[])
  }

  /** `Cache(enabled, cache_dir)`. `dirCreated` is whether `mkdir` of the cache
      directory succeeded; `stored` is what the database file already holds
      (the table is created only if missing, so earlier rows survive). */
  function Init(enabled: bool, dirCreated: bool, stored: map<string, CacheEntry>): (c: Cache)
    requires Keyed(stored)
    ensures Valid(c)
    ensures c.enabled <==> enabled && dirCreated
    ensures c.enabled ==> c.entries == stored
  {
    if !enabled || !dirCreated then Cache(false, map[]) else Cache(true, stored)
  }

  /** `cache.get(pdf_hash)`: returns the row as stored, then stamps that row's
      `last_accessed` with `now`. Returns the new cache and the row found. */
  function Get(c: Cache, pdfHash: string, now: string): (r: (Cache, Option<CacheEntry>))
    ensures !c.enabled ==> r == (c, None)
    ensures r.1.Some? <==> c.enabled && pdfHash in c.entries
    ensures pdfHash !in c.entries ==> r.0 == c
    ensures r.1.Some? ==> r.1.value == c.entries[pdfHash]
    ensures r.1.Some? ==> r.0.enabled && r.0.entries.Keys == c.entries.Keys
    ensures r.1.Some? ==> r.0.entries[pdfHash] == c.entries[pdfHash].(lastAccessed := now)
    ensures forall h :: h in c.entries && h != pdfHash ==> h in r.0.entries && r.0.entries[h] == c.entries[h]
    ensures Valid(c) ==> Valid(r.0)
  {
    if !c.enabled || pdfHash !in c.entries then (c, None)
    else
      var row := c.entries[pdfHash];
      (c.(entries := c.entries[pdfHash := row.(lastAccessed := now)]), Some(row))
  }

  /** `cache.set(entry)`: INSERT OR REPLACE keyed by the entry's hash. */
  function Set(c: Cache, e: CacheEntry): (r: Cache)
    ensures !c.enabled ==> r == c
    ensures r.enabled == c.enabled
    ensures c.enabled ==> r.entries.Keys == c.entries.Keys + {e.pdfHash} && r.entries[e.pdfHash] == e
    ensures forall h :: h in c.entries && h != e.pdfHash ==> h in r.entries && r.entries[h] == c.entries[h]
    ensures Valid(c) ==> Valid(r)
  {
    if !c.enabled then c else c.(entries := c.entries[e.pdfHash := e])
  }

  /** `cache.clear()`: the database file is deleted and an empty table made. */
  function Clear(c: Cache): (r: Cache)
    ensures !c.enabled ==> r == c
    ensures r.enabled == c.enabled
    ensures c.enabled ==> r.entries == map[]
    ensures Valid(c) ==> Valid(r)
  {
    if !c.enabled then c else c.(entries := map[])
  }

  /** A stored row comes back from `get`: after `set(e)`, `get(e.pdf_hash)`
      on an enabled cache returns `e` itself, content included. */
  lemma SetThenGet(c: Cache, e: CacheEntry, now: string)
    requires c.enabled
    ensures Get(Set(c, e), e.pdfHash, now).1 == Some(e)
    ensures Get(Set(c, e), e.pdfHash, now).1.value.markdownContent == e.markdownContent
  {
  }

  /** Insert-or-replace: two `set`s under one hash leave exactly one row for
      it, the second, and do not grow the table beyond one new key. */
  lemma SetTwiceReplaces(c: Cache, e1: CacheEntry, e2: CacheEntry)
    requires c.enabled && e1.pdfHash == e2.pdfHash
    ensures Set(Set(c, e1), e2).entries == c.entries[e2.pdfHash := e2]
    ensures |Set(Set(c, e1), e2).entries| <= |c.entries| + 1
  {
    var m := c.entries[e2.pdfHash := e2];
    assert m.Keys == c.entries.Keys + {e2.pdfHash};
  }

  /** What `stats()` returns: `{}` for a disabled cache, otherwise the four
      aggregates. */
  datatype StatsReport =
    | NoStats
    | Report(totalEntries: nat, totalSize: nat, oldest: string, newest: string)

  /** A key chosen from a non-empty table, to fold over it. */
  ghost function Pick(m: map<string, CacheEntry>): (h: string)
    requires m != map[]
    ensures h in m
  {
    var h :| h in m; h
  }

  /** SQLite's `length(X)` of a text value: the number of characters before
      the first NUL, which is every character when there is none. */
  function SqlLength(s: string): (n: nat)
    ensures n <= |s|
    ensures forall j :: 0 <= j < n ==> s[j] != '\0'
    ensures n < |s| ==> s[n] == '\0'
  {
    if |s| == 0 || s[0] == '\0' then 0 else 1 + SqlLength(s[1..])
  }

  /** `SUM(LENGTH(markdown_content))`, 0 for an empty table. */
  ghost function TotalSize(m: map<string, CacheEntry>): nat
    decreases |m|
  {
    if m == map[] then 0
    else
      var h := Pick(m);
      assert (m - {h}).Keys == m.Keys - {h};
      SqlLength(m[h].markdownContent) + TotalSize(m - {h})
  }

  /** The sum does not depend on which row is taken first. */
  lemma {:induction false} TotalSizeRemove(m: map<string, CacheEntry>, h: string)
    requires h in m
    ensures TotalSize(m) == SqlLength(m[h].markdownContent) + TotalSize(m - {h})
    decreases |m|
  {
    var p := Pick(m);
    assert (m - {p}).Keys == m.Keys - {p};
    if p != h {
      TotalSizeRemove(m - {p}, h);
      TotalSizeRemove(m - {h}, p);
      assert m - {p} - {h} == m - {h} - {p};
    }
  }

  /** `t` is `MIN(created_at)` of a non-empty table. */
  ghost predicate IsOldest(m: map<string, CacheEntry>, t: string)
  {
    (exists h :: h in m && m[h].createdAt == t) &&
    forall h :: h in m ==> Text.LexLe(t, m[h].createdAt)
  }

  /** `t` is `MAX(created_at)` of a non-empty table. */
  ghost predicate IsNewest(m: map<string, CacheEntry>, t: string)
  {
    (exists h :: h in m && m[h].createdAt == t) &&
    forall h :: h in m ==> Text.LexLe(m[h].createdAt, t)
  }

  /** `cache.stats()`: the aggregates SQLite computes over the table, one row
      at a time. */
  method Stats(c: Cache) returns (s: StatsReport)
    ensures !c.enabled ==> s == NoStats
    ensures c.enabled ==> s.Report? && s.totalEntries == |c.entries| && s.totalSize == TotalSize(c.entries)
    ensures c.enabled && c.entries == map[] ==> s.oldest == "" && s.newest == ""
    ensures c.enabled && c.entries != map[] ==> IsOldest(c.entries, s.oldest) && IsNewest(c.entries, s.newest)
  {
    if !c.enabled {
      return NoStats;
    }
    var rest := c.entries;
    var count := 0;
    var size := 0;
    var oldest, newest := "", "";
    while rest != map[]
      invariant rest.Keys <= c.entries.Keys
      invariant forall h :: h in rest ==> rest[h] == c.entries[h]
      invariant count + |rest| == |c.entries|
      invariant size + TotalSize(rest) == TotalSize(c.entries)
      invariant count > 0 ==> exists h :: h in c.entries && c.entries[h].createdAt == oldest
      invariant count > 0 ==> exists h :: h in c.entries && c.entries[h].createdAt == newest
      invariant forall h :: h in c.entries && h !in rest ==> Text.LexLe(oldest, c.entries[h].createdAt)
      invariant forall h :: h in c.entries && h !in rest ==> Text.LexLe(c.entries[h].createdAt, newest)
      invariant count == 0 ==> rest == c.entries && oldest == "" && newest == ""
      decreases |rest|
    {
      var h :| h in rest;
      var t := rest[h].createdAt;
      TotalSizeRemove(rest, h);
      Text.LexLeTotal(t, oldest);
      Text.LexLeTotal(t, newest);
      Text.LexLeReflexive(t);
      if count == 0 || !Text.LexLe(oldest, t) {
        forall g | g in c.entries && g !in rest
          ensures Text.LexLe(t, c.entries[g].createdAt)
        {
          Text.LexLeTransitive(t, oldest, c.entries[g].createdAt);
        }
        oldest := t;
      }
      if count == 0 || !Text.LexLe(t, newest) {
        forall g | g in c.entries && g !in rest
          ensures Text.LexLe(c.entries[g].createdAt, t)
        {
          Text.LexLeTransitive(c.entries[g].createdAt, newest, t);
        }
        newest := t;
      }
      assert (rest - {h}).Keys == rest.Keys - {h};
      rest := rest - {h};
      count := count + 1;
      size := size + SqlLength(c.entries[h].markdownContent);
    }
    s := Report(count, size, oldest, newest);
  }

  /** After `clear()`, `stats()` reports no entries and no content. */
  method ClearThenStats(c: Cache) returns (s: StatsReport)
    requires c.enabled
    ensures s == Report(0, 0, "", "")
  {
    s := Stats(Clear(c));
  }

  const CHUNK_SIZE: nat := 8192

  /** The incremental SHA-256 object: its state is every byte handed to
      `update` so far, and `hexdigest` is the digest of that byte string. */
  datatype Hasher = Hasher(fed: seq<byte>) {

    function Update(chunk: seq<byte>): Hasher
    {
      Hasher(fed + chunk)
    }

    function HexDigest(sha256: seq<byte> -> string): string
    {
      sha256(fed)
    }
  }

  /** The chunks, glued back together in order. */
  function Concat(chunks: seq<seq<byte>>): seq<byte>
  {
    if |chunks| == 0 then [] else Concat(chunks[..|chunks| - 1]) + chunks[|chunks| - 1]
  }

  /** `compute_pdf_hash` as a value: the digest of the file's bytes, or the
      error `open` raises. */
  function PdfHash(sha256: seq<byte> -> string, fs: FileSystem, p: Path): (r: Result<string, IoError>)
    ensures r.Success? <==> IsFile(fs, p)
    ensures r.Failure? ==> r.error == ReadBytes(fs, p).error
  {
    match ReadBytes(fs, p)
    case Failure(e) => Failure(e)
    case Success(data) => Success(sha256(data))
  }

  /** The hash is a function of content alone: two files with the same bytes,
      at any two paths in any two filesystem states, get the same hash. */
  lemma HashDependsOnlyOnContent(sha256: seq<byte> -> string, fs1: FileSystem, p1: Path, fs2: FileSystem, p2: Path)
    requires IsFile(fs1, p1) && IsFile(fs2, p2) && fs1.files[p1] == fs2.files[p2]
    ensures PdfHash(sha256, fs1, p1) == PdfHash(sha256, fs2, p2)
  {
  }

  /** `compute_pdf_hash(path)`: reads the file 8192 bytes at a time and feeds
      each chunk to the hasher. The chunks are non-empty, all but the last are
      full, and together they are exactly the file, so the digest is the
      digest of the whole content. */
  method ComputePdfHash(sha256: seq<byte> -> string, fs: FileSystem, p: Path)
    returns (r: Result<string, IoError>, chunks: seq<seq<byte>>)
    ensures r.Success? <==> IsFile(fs, p)
    ensures r.Success? ==> Concat(chunks) == fs.files[p] && r.value == sha256(fs.files[p])
    ensures r == PdfHash(sha256, fs, p)
    ensures r.Failure? ==> chunks == []
    ensures forall i :: 0 <= i < |chunks| ==> 0 < |chunks[i]| <= CHUNK_SIZE
    ensures forall i :: 0 <= i < |chunks| - 1 ==> |chunks[i]| == CHUNK_SIZE
  {
    chunks := [];
    match ReadBytes(fs, p)
    case Failure(e) =>
      r := Failure(e);
    case Success(data) =>
      var hasher := Hasher([]);
      var pos := 0;
      while pos < |data|
        invariant 0 <= pos <= |data|
        invariant hasher.fed == data[..pos] == Concat(chunks)
        invariant forall i :: 0 <= i < |chunks| ==> 0 < |chunks[i]| <= CHUNK_SIZE
        invariant forall i :: 0 <= i < |chunks| ==> |chunks[i]| == CHUNK_SIZE || (i == |chunks| - 1 && pos == |data|)
        decreases |data| - pos
      {
        var end := if pos + CHUNK_SIZE <= |data| then pos + CHUNK_SIZE else |data|;
        var chunk := data[pos..end];
        assert data[..end] == data[..pos] + chunk;
        hasher := hasher.Update(chunk);
        chunks := chunks + [chunk];
        pos := end;
      }
      assert data[..pos] == data;
      r := Success(hasher.HexDigest(sha256));
  }
}
