/** The per-parser cache of source files: one file object per path, made the
    first time the path is met and handed out again afterwards. The file
    object's identity is its creation number. */
module FileCache {

  datatype SourceFile = SourceFile(id: nat, path: string)

  type Cache = map<string, SourceFile>

  /** Each entry is the file of its own path, the numbers are those of the
      files made so far, and no two paths share a file. */
  predicate Valid(c: Cache) {
    && (forall p :: p in c ==> c[p].path == p && c[p].id < |c|)
    && (forall p, q :: p in c && q in c && c[p].id == c[q].id ==> p == q)
  }

  /** The file for `path`, and the cache after asking for it. */
  function GetOrCreate(path: string, c: Cache): (r: (SourceFile, Cache))
    ensures path in r.1 && r.1[path] == r.0
    ensures forall p :: p in c ==> p in r.1 && r.1[p] == c[p]
    ensures r.1.Keys == c.Keys + {path}
  {
    if path in c then (c[path], c)
    else
      var f := SourceFile(|c|, path);
      (f, c[path := f])
  }

  /** Asking keeps the cache valid and hands out the file of the path asked
      for: the one already cached, or a new one unlike every cached file. */
  lemma GetOrCreateKeepsValid(path: string, c: Cache)
    requires Valid(c)
    ensures Valid(GetOrCreate(path, c).1)
    ensures GetOrCreate(path, c).0.path == path
    ensures path !in c ==> forall p :: p in c ==> c[p].id != GetOrCreate(path, c).0.id
  {
    if path !in c {
      var c' := c[path := SourceFile(|c|, path)];
      assert |c'| == |c| + 1 by {
        assert c'.Keys == c.Keys + {path};
      }
    }
  }

  /** Asking twice for the same path gives the same file and leaves the cache
      as the first request left it. */
  lemma GetOrCreateIdempotent(path: string, c: Cache)
    ensures var (f, c1) := GetOrCreate(path, c);
      GetOrCreate(path, c1) == (f, c1)
  {
  }

  /** In a valid cache, two paths get the same file only if they are the same
      path. */
  lemma DistinctPathsDistinctFiles(p: string, q: string, c: Cache)
    requires Valid(c)
    requires p != q
    ensures var (f, c1) := GetOrCreate(p, c);
      GetOrCreate(q, c1).0 != f
  {
    GetOrCreateKeepsValid(p, c);
    var (f, c1) := GetOrCreate(p, c);
    GetOrCreateKeepsValid(q, c1);
  }
}
