/** The duplicate-detection pipeline of finddupes.py: validate the roots,
    bucket every discovered file by size, set the zero-byte files aside, hash
    only the files whose size collides with another's, and report every hash
    bucket that holds more than one file. */
module FindDupes {
  import opened Wrappers
  import opened Os
  import opened DefaultDict
  import opened FileRecords

  /** What a successful run reports: the zero-byte files and their number,
      and the duplicate groups as (hash, files) pairs. */
  datatype Report = Report(
    zeroByteCount: nat,
    zeroByteFiles: seq<FileData>,
    duplicates: seq<(string, seq<FileData>)>)

  /** The exit status of a run that rejected one of its roots. */
  const BadRoot := 1

  /** The `duplicates` generator, over the given keys of a dict: every key
      whose list has more than one member, with that list unchanged, in key
      order. */
  function DuplicatesAmong<K(==), V(==)>(keys: seq<K>, lists: map<K, seq<V>>): (r: seq<(K, seq<V>)>)
    ensures forall p :: p in r ==> p.0 in keys && p.0 in lists && |lists[p.0]| > 1 && p.1 == lists[p.0]
    ensures forall k :: k in keys && k in lists && |lists[k]| > 1 ==> (k, lists[k]) in r
    ensures forall i :: 0 <= i < |r| ==> r[i].0 in keys
    ensures Distinct(keys) ==> forall i, j :: 0 <= i < j < |r| ==> r[i].0 != r[j].0
  {
    if keys == [] then []
    else
      var n := |keys| - 1;
      var k := keys[n];
      assert Distinct(keys) ==> k !in keys[..n];
      DuplicatesAmong(keys[..n], lists) + if k in lists && |lists[k]| > 1 then [(k, lists[k])] else []
  }

  /** `duplicates(hashes)`: yields `(h, files)` exactly when `h` is a key
      of the dict and `files` its list, of length above one; each key at
      most once. */
  function Duplicates<K(==), V(==)>(d: Dict<K, V>): (r: seq<(K, seq<V>)>)
    requires d.Valid()
    ensures forall p :: p in r ==> p.0 in d.lists && |d.lists[p.0]| > 1 && p.1 == d.lists[p.0]
    ensures forall k :: k in d.lists && |d.lists[k]| > 1 ==> (k, d.lists[k]) in r
    ensures forall i, j :: 0 <= i < j < |r| ==> r[i].0 != r[j].0
  {
    DuplicatesAmong(d.keys, d.lists)
  }

  /** The records `hash_files` hashes, in the order it hashes them: the
      members of every size bucket with more than one member. */
  function Candidates<K(==)>(d: Dict<K, FileData>): seq<FileData>
    requires d.Valid()
  {
    Flatten(Duplicates(d))
  }

  /** A record is hashed exactly when it sits in a bucket of more than one. */
  lemma CandidatesIff<K>(d: Dict<K, FileData>, f: FileData)
    requires d.Valid()
    ensures f in Candidates(d) <==> exists k :: k in d.lists && |d.lists[k]| > 1 && f in d.lists[k]
  {
    var r := Duplicates(d);
    FlattenMember(r, f);
    if f in Candidates(d) {
      var i :| 0 <= i < |r| && f in r[i].1;
      var p := r[i];
      assert p in r;
      assert f in d.lists[p.0];
    } else {
      forall k | k in d.lists && |d.lists[k]| > 1 ensures f !in d.lists[k] {
        assert (k, d.lists[k]) in r;
        var i :| 0 <= i < |r| && r[i] == (k, d.lists[k]);
        assert f !in r[i].1;
      }
    }
  }

  /** Every member of a bucket of more than one is a candidate. */
  lemma BucketIsCandidate<K>(d: Dict<K, FileData>, k: K)
    requires d.Valid() && k in d.lists && |d.lists[k]| > 1
    ensures forall f :: f in d.lists[k] ==> f in Candidates(d)
  {
    forall f | f in d.lists[k] ensures f in Candidates(d) {
      CandidatesIff(d, f);
    }
  }

  /** The check at the start of `main`: the index of the first root that
      is not a directory, if there is one. */
  method FirstNonDirectory(fs: FileSystem, roots: seq<string>) returns (bad: Option<nat>)
    ensures bad.None? <==> forall i :: 0 <= i < |roots| ==> fs.isDir(roots[i])
    ensures bad.Some? ==> bad.value < |roots| && !fs.isDir(roots[bad.value])
    ensures bad.Some? ==> forall i :: 0 <= i < bad.value ==> fs.isDir(roots[i])
  {
    for i := 0 to |roots|
      invariant forall j :: 0 <= j < i ==> fs.isDir(roots[j])
    {
      if !fs.isDir(roots[i]) {
        return Some(i);
      }
    }
    return None;
  }

  /** The files found under `roots`, root after root, each in walk order. */
  function Discovered(tree: string -> seq<Stat>, roots: seq<string>): seq<Stat> {
    if roots == [] then []
    else Discovered(tree, roots[..|roots| - 1]) + tree(roots[|roots| - 1])
  }

  /** `files` are the records made, one for one and in order, for `stats`. */
  ghost predicate Records(files: seq<FileData>, stats: seq<Stat>, sha1: seq<bv8> -> string) {
    |files| == |stats| && forall i :: 0 <= i < |files| ==> files[i].Describes(stats[i], sha1)
  }

  /** One step of FileBySize: the record `f` made for `found[e]` extends
      the records so far. */
  lemma FileStep(files: seq<FileData>, added: seq<FileData>, f: FileData,
                 found: seq<Stat>, e: nat, sha1: seq<bv8> -> string)
    requires e < |found|
    requires Distinct(files + added) && f !in files + added
    requires Records(added, found[..e], sha1) && f.Describes(found[e], sha1)
    ensures Distinct(files + (added + [f]))
    ensures Records(added + [f], found[..e + 1], sha1)
    ensures files + (added + [f]) == (files + added) + [f]
    ensures ((files + added) + [f])[..|files + added|] == files + added
  {
    var seen := files + added;
    assert files + (added + [f]) == seen + [f];
    forall i, j | 0 <= i < j < |seen + [f]| ensures (seen + [f])[i] != (seen + [f])[j] {
      assert (seen + [f])[i] == seen[i];
      if j == |seen| {
        assert seen[i] in seen;
      } else {
        assert (seen + [f])[j] == seen[j];
      }
    }
    assert found[..e + 1] == found[..e] + [found[e]];
    RecordsConcat(added, [f], found[..e], [found[e]], sha1);
  }

  lemma RecordsConcat(a: seq<FileData>, b: seq<FileData>, s: seq<Stat>, t: seq<Stat>, sha1: seq<bv8> -> string)
    requires Records(a, s, sha1) && Records(b, t, sha1)
    ensures Records(a + b, s + t, sha1)
  {
    forall i | 0 <= i < |a + b| ensures (a + b)[i].Describes((s + t)[i], sha1) {
      if i >= |a| {
        assert (a + b)[i] == b[i - |a|] && (s + t)[i] == t[i - |a|];
      }
    }
  }

  /** One step of CollectBySize: the records `added` made for the files
      under `roots[r]` extend the records so far. */
  lemma RootStep(files: seq<FileData>, added: seq<FileData>, tree: string -> seq<Stat>,
                 walked: seq<string>, roots: seq<string>, r: nat, sha1: seq<bv8> -> string)
    requires r < |roots|
    requires Records(files, Discovered(tree, roots[..r]), sha1)
    requires Records(added, tree(roots[r]), sha1)
    ensures Records(files + added, Discovered(tree, roots[..r + 1]), sha1)
    ensures walked + roots[..r + 1] == (walked + roots[..r]) + [roots[r]]
  {
    assert roots[..r + 1][..r] == roots[..r];
    assert roots[..r + 1] == roots[..r] + [roots[r]];
    RecordsConcat(files, added, Discovered(tree, roots[..r]), tree(roots[r]), sha1);
  }

  /** The inner collection loop of `main`, for one walked root: makes a
      record for every file found and appends it to the list of its size.
      `added` are the new records. */
  method FileBySize(found: seq<Stat>, sha1: seq<bv8> -> string,
                    filesizes: Dict<nat, FileData>, ghost files: seq<FileData>)
    returns (filesizes': Dict<nat, FileData>, ghost added: seq<FileData>)
    requires filesizes == Index(files, SizeOf)
    requires Distinct(files)
    ensures Records(added, found, sha1)
    ensures forall f :: f in added ==> fresh(f) && f.lazyHash.None? && f.Valid()
    ensures Distinct(files + added)
    ensures filesizes' == Index(files + added, SizeOf)
  {
    filesizes' := filesizes;
    added := [];
    assert files + added == files;
    for e := 0 to |found|
      invariant Records(added, found[..e], sha1)
      invariant forall f :: f in added ==> fresh(f) && f.lazyHash.None? && f.Valid()
      invariant Distinct(files + added)
      invariant filesizes' == Index(files + added, SizeOf)
    {
      var f := new FileData(found[e], sha1);
      FileStep(files, added, f, found, e, sha1);
      filesizes' := filesizes'.Append(f.size, f);
      added := added + [f];
    }
    assert found[..|found|] == found;
  }

  /** The collection loop of `main`: walks each root in turn and files
      every record under its size. */
  method CollectBySize(fs: FileSystem, roots: seq<string>, sha1: seq<bv8> -> string)
    returns (filesizes: Dict<nat, FileData>, ghost files: seq<FileData>)
    modifies fs
    ensures fs.walked == old(fs.walked) + roots
    ensures Records(files, Discovered(fs.tree, roots), sha1)
    ensures Distinct(files)
    ensures forall f :: f in files ==> fresh(f) && f.lazyHash.None? && f.Valid()
    ensures filesizes == Index(files, SizeOf)
  {
    filesizes := Dict([], map[]);
    files := [];
    for r := 0 to |roots|
      invariant fs.walked == old(fs.walked) + roots[..r]
      invariant Records(files, Discovered(fs.tree, roots[..r]), sha1)
      invariant Distinct(files)
      invariant forall f :: f in files ==> fresh(f) && f.lazyHash.None? && f.Valid()
      invariant filesizes == Index(files, SizeOf)
    {
      var found := fs.Walk(roots[r]);
      ghost var added;
      filesizes, added := FileBySize(found, sha1, filesizes, files);
      RootStep(files, added, fs.tree, old(fs.walked), roots, r, sha1);
      files := files + added;
    }
    assert roots[..|roots|] == roots;
  }

  /** `done + files[..j + 1]` is `done + files[..j]` followed by `files[j]`. */
  lemma PrefixStep<T>(done: seq<T>, files: seq<T>, j: nat)
    requires j < |files|
    ensures files[..j + 1] == files[..j] + [files[j]]
    ensures done + files[..j + 1] == (done + files[..j]) + [files[j]]
    ensures ((done + files[..j]) + [files[j]])[..|done| + j] == done + files[..j]
  {
    assert files[..j + 1] == files[..j] + [files[j]];
  }

  /** The inner loop of `hash_files`, over one size bucket of more than one
      record: hashes each record and appends it to the list of its hash. */
  method HashBucket(files: seq<FileData>, hashes: Dict<string, FileData>,
                    ghost done: seq<FileData>, ghost pool: set<FileData>)
    returns (hashes': Dict<string, FileData>)
    requires hashes == Index(done, DigestOf)
    requires forall f :: f in files ==> f in pool
    requires forall f :: f in pool ==> f.Valid()
    modifies set f | f in files
    ensures hashes' == Index(done + files, DigestOf)
    ensures forall f :: f in pool ==> f.Valid()
    ensures forall f :: f in files ==> f.lazyHash == Some(DigestOf(f))
    ensures forall f :: f in pool && f !in files ==> f.lazyHash == old(f.lazyHash)
  {
    hashes' := hashes;
    assert files[..0] == [] && done + [] == done;
    for j := 0 to |files|
      invariant hashes' == Index(done + files[..j], DigestOf)
      invariant forall f :: f in pool ==> f.Valid()
      invariant forall f :: f in files[..j] ==> f.lazyHash == Some(DigestOf(f))
      invariant forall f :: f in pool && f !in files ==> f.lazyHash == old(f.lazyHash)
    {
      var f := files[j];
      var h := f.Hash();
      PrefixStep(done, files, j);
      hashes' := hashes'.Append(h, f);
    }
    assert files[..|files|] == files;
  }

  /** `keys[..i + 1]` adds at most the item of `keys[i]` to the duplicates among `keys[..i]`. */
  lemma DuplicatesStep<K, V>(keys: seq<K>, lists: map<K, seq<V>>, i: nat)
    requires i < |keys|
    ensures Flatten(DuplicatesAmong(keys[..i + 1], lists))
         == Flatten(DuplicatesAmong(keys[..i], lists))
            + if keys[i] in lists && |lists[keys[i]]| > 1 then lists[keys[i]] else []
  {
    var k := keys[i];
    var prev := DuplicatesAmong(keys[..i], lists);
    assert keys[..i + 1][..i] == keys[..i];
    assert keys[..i + 1][i] == k;
    if k in lists && |lists[k]| > 1 {
      assert DuplicatesAmong(keys[..i + 1], lists) == prev + [(k, lists[k])];
      FlattenSnoc(prev, (k, lists[k]));
    } else {
      assert DuplicatesAmong(keys[..i + 1], lists) == prev;
    }
  }

  /** `hash_files`: hashes every record of every size bucket with more than
      one member and files it under its hash, in iteration order. Only those
      records are touched. */
  method HashFiles(filelist: Dict<nat, FileData>) returns (hashes: Dict<string, FileData>)
    requires filelist.Valid()
    requires forall f :: f in Candidates(filelist) ==> f.Valid()
    modifies set f | f in Candidates(filelist)
    ensures hashes == Index(Candidates(filelist), DigestOf)
    ensures forall f :: f in Candidates(filelist) ==>
      f.Valid() && f.lazyHash == Some(DigestOf(f)) && f.hashCalls == 1
  {
    hashes := Dict([], map[]);
    ghost var done: seq<FileData> := [];
    ghost var candidates := set f | f in Candidates(filelist);
    for i := 0 to |filelist.keys|
      invariant done == Flatten(DuplicatesAmong(filelist.keys[..i], filelist.lists))
      invariant hashes == Index(done, DigestOf)
      invariant forall f :: f in candidates ==> f.Valid()
      invariant forall f :: f in done ==> f in candidates && f.lazyHash == Some(DigestOf(f))
    {
      var size := filelist.keys[i];
      assert size in filelist.keys;
      var files := filelist.lists[size];
      DuplicatesStep(filelist.keys, filelist.lists, i);
      if |files| > 1 {
        BucketIsCandidate(filelist, size);
        hashes := HashBucket(files, hashes, done, candidates);
        done := done + files;
      }
    }
    assert filelist.keys[..|filelist.keys|] == filelist.keys;
    assert done == Candidates(filelist);
  }

  /** The size buckets handed to `hash_files`: all of them except that of
      size 0, which reading `filesizes[0]` creates if need be and `del`
      then removes. */
  function NonEmptyBySize(files: seq<FileData>): (d: Dict<nat, FileData>)
    ensures d.Valid()
  {
    Index(files, SizeOf).Subscript(0).1.Delete(0)
  }

  /** The records a run hashes. */
  function Hashed(files: seq<FileData>): seq<FileData> {
    Candidates(NonEmptyBySize(files))
  }

  /** What a run over the records `files` reports. */
  function Resolve(files: seq<FileData>): Report {
    var zeros := Index(files, SizeOf).Get(0);
    Report(|zeros|, zeros, Duplicates(Index(Hashed(files), DigestOf)))
  }

  /** The size buckets that reach `hash_files` are those of every non-zero
      size that occurs, each holding the records of that size in discovery
      order. */
  lemma NonEmptyBySizeIsFiled(files: seq<FileData>, k: nat)
    ensures k in NonEmptyBySize(files).lists <==> k != 0 && Filed(files, SizeOf, k) != []
    ensures k in NonEmptyBySize(files).lists ==> NonEmptyBySize(files).lists[k] == Filed(files, SizeOf, k)
  {
    IndexIsFiled(files, SizeOf, k);
  }

  /** A record is hashed exactly when it is not empty and some other record
      has its size; in particular zero-byte records and records of a size
      no other record has are never hashed. */
  lemma HashedIff(files: seq<FileData>, f: FileData)
    ensures f in Hashed(files) <==> f in files && f.size != 0 && |Filed(files, SizeOf, f.size)| > 1
  {
    var d := NonEmptyBySize(files);
    CandidatesIff(d, f);
    NonEmptyBySizeIsFiled(files, f.size);
    if f in Hashed(files) {
      var k :| k in d.lists && |d.lists[k]| > 1 && f in d.lists[k];
      NonEmptyBySizeIsFiled(files, k);
    }
  }

  /** How often a value occurs in the duplicates among `keys`, when every
      list holds only values of its own key. */
  lemma {:induction false} DuplicatesCount<K, V>(keys: seq<K>, lists: map<K, seq<V>>, key: V -> K, v: V)
    requires Distinct(keys)
    requires forall k, w :: k in lists && w in lists[k] ==> key(w) == k
    ensures multiset(Flatten(DuplicatesAmong(keys, lists)))[v]
         == if key(v) in keys && key(v) in lists && |lists[key(v)]| > 1 then multiset(lists[key(v)])[v] else 0
  {
    if keys != [] {
      var n := |keys| - 1;
      var k := keys[n];
      var prev := DuplicatesAmong(keys[..n], lists);
      assert keys[..n] + [k] == keys;
      assert key(v) in keys <==> key(v) in keys[..n] || key(v) == k;
      assert Distinct(keys[..n]);
      DuplicatesCount(keys[..n], lists, key, v);
      if k in lists && |lists[k]| > 1 {
        assert DuplicatesAmong(keys, lists) == prev + [(k, lists[k])];
        FlattenSnoc(prev, (k, lists[k]));
        if k != key(v) {
          assert v !in lists[k];
          assert multiset(lists[k])[v] == 0;
        } else {
          assert key(v) !in keys[..n];
        }
      } else {
        assert DuplicatesAmong(keys, lists) == prev;
      }
    }
  }

  /** Every record of size bucket of more than one non-empty record is
      hashed exactly as often as it was discovered (once, for records made
      one per file), and no other record is hashed. */
  lemma HashedCount(files: seq<FileData>, f: FileData)
    ensures multiset(Hashed(files))[f]
         == if f.size != 0 && |Filed(files, SizeOf, f.size)| > 1 then multiset(files)[f] else 0
  {
    var d := NonEmptyBySize(files);
    forall k, w | k in d.lists && w in d.lists[k] ensures SizeOf(w) == k {
      NonEmptyBySizeIsFiled(files, k);
    }
    DuplicatesCount(d.keys, d.lists, SizeOf, f);
    NonEmptyBySizeIsFiled(files, f.size);
    FiledCount(files, SizeOf, f.size, f);
  }

  /** The number of values in the lists of more than one member, over
      `keys`. */
  function CollidingCount<K, V>(keys: seq<K>, lists: map<K, seq<V>>): nat {
    if keys == [] then 0
    else
      var k := keys[|keys| - 1];
      CollidingCount(keys[..|keys| - 1], lists) + if k in lists && |lists[k]| > 1 then |lists[k]| else 0
  }

  lemma {:induction false} CollidingCountIsLength<K, V>(keys: seq<K>, lists: map<K, seq<V>>)
    ensures |Flatten(DuplicatesAmong(keys, lists))| == CollidingCount(keys, lists)
  {
    if keys != [] {
      var n := |keys| - 1;
      var k := keys[n];
      var prev := DuplicatesAmong(keys[..n], lists);
      CollidingCountIsLength(keys[..n], lists);
      if k in lists && |lists[k]| > 1 {
        assert DuplicatesAmong(keys, lists) == prev + [(k, lists[k])];
        FlattenSnoc(prev, (k, lists[k]));
      } else {
        assert DuplicatesAmong(keys, lists) == prev;
      }
    }
  }

  /** The dict `hash_files` returns holds exactly the hashed records, each
      as often as it was hashed, so its number of entries is the total size
      of the size buckets of more than one member. */
  lemma HashEntries(files: seq<FileData>)
    ensures multiset(Members(Index(Hashed(files), DigestOf))) == multiset(Hashed(files))
    ensures |Members(Index(Hashed(files), DigestOf))|
         == CollidingCount(NonEmptyBySize(files).keys, NonEmptyBySize(files).lists)
  {
    var d := NonEmptyBySize(files);
    IndexMembers(Hashed(files), DigestOf);
    assert |Members(Index(Hashed(files), DigestOf))| == |Hashed(files)| by {
      var m := Members(Index(Hashed(files), DigestOf));
      assert |m| == |multiset(m)|;
    }
    CollidingCountIsLength(d.keys, d.lists);
  }

  /** The zero-byte records are reported, in discovery order, and counted,
      apart from the duplicate groups. */
  lemma ZeroByteFiles(files: seq<FileData>)
    ensures Resolve(files).zeroByteFiles == Filed(files, SizeOf, 0)
    ensures Resolve(files).zeroByteCount == |Filed(files, SizeOf, 0)|
    ensures forall f :: f in files && f.size == 0 ==> f in Resolve(files).zeroByteFiles
  {
    IndexIsFiled(files, SizeOf, 0);
  }

  /** The duplicate groups are exactly the hash buckets of more than one
      hashed record: for each such digest, the hashed records with that
      digest, in the order they were hashed. */
  lemma GroupsExact(files: seq<FileData>, h: string, g: seq<FileData>)
    ensures (h, g) in Resolve(files).duplicates
        <==> g == Filed(Hashed(files), DigestOf, h) && |g| > 1
  {
    IndexIsFiled(Hashed(files), DigestOf, h);
  }

  /** Every member of a duplicate group has the group's digest, is a
      discovered record that is not empty, and shares its size with another
      record; every group has two members or more. */
  lemma GroupMembers(files: seq<FileData>, h: string, g: seq<FileData>, f: FileData)
    requires (h, g) in Resolve(files).duplicates && f in g
    ensures |g| > 1
    ensures DigestOf(f) == h
    ensures f in files && f.size != 0 && |Filed(files, SizeOf, f.size)| > 1
  {
    GroupsExact(files, h, g);
    HashedIff(files, f);
  }

  /** A record is reported in a duplicate group exactly when it is hashed
      and another hashed record has the same digest. */
  lemma ReportedIff(files: seq<FileData>, f: FileData)
    ensures (exists p :: p in Resolve(files).duplicates && f in p.1)
        <==> f in Hashed(files) && |Filed(Hashed(files), DigestOf, DigestOf(f))| > 1
  {
    var groups := Resolve(files).duplicates;
    if exists p :: p in groups && f in p.1 {
      var p :| p in groups && f in p.1;
      GroupsExact(files, p.0, p.1);
    }
    if f in Hashed(files) && |Filed(Hashed(files), DigestOf, DigestOf(f))| > 1 {
      var h := DigestOf(f);
      GroupsExact(files, h, Filed(Hashed(files), DigestOf, h));
      assert (h, Filed(Hashed(files), DigestOf, h)) in groups;
    }
  }

  /** `main`: fails with status 1 before walking anything if a root is not
      a directory; otherwise walks every root, sets the zero-byte files
      aside, hashes the size-colliding files and reports the duplicate
      groups, with status 0. `files` are the records made, one per file
      found. */
  method FindDuplicates(fs: FileSystem, roots: seq<string>, sha1: seq<bv8> -> string)
    returns (status: int, report: Option<Report>, ghost files: seq<FileData>)
    modifies fs
    ensures status == BadRoot <==> exists i :: 0 <= i < |roots| && !fs.isDir(roots[i])
    ensures status == BadRoot ==> fs.walked == old(fs.walked) && report == None && files == []
    ensures status != BadRoot ==> status == 0 && fs.walked == old(fs.walked) + roots
    ensures status == 0 ==> Records(files, Discovered(fs.tree, roots), sha1) && Distinct(files)
    ensures status == 0 ==> report == Some(Resolve(files))
    ensures forall f :: f in files ==> fresh(f) && f.Valid()
    ensures forall f :: f in files ==>
      if f.size != 0 && |Filed(files, SizeOf, f.size)| > 1
      then f.lazyHash == Some(DigestOf(f)) && f.hashCalls == 1
      else f.lazyHash == None && f.hashCalls == 0
  {
    var bad := FirstNonDirectory(fs, roots);
    if bad.Some? {
      return BadRoot, None, [];
    }
    var filesizes;
    filesizes, files := CollectBySize(fs, roots, sha1);
    var read := filesizes.Subscript(0);
    var zeroByteFiles := read.0;
    filesizes := read.1;
    var numZeroByteFiles := |zeroByteFiles|;
    filesizes := filesizes.Delete(0);
    assert filesizes == NonEmptyBySize(files);
    forall f | f in Candidates(filesizes) ensures f in files && f.Valid() {
      CandidatesIff(filesizes, f);
      var k :| k in filesizes.lists && |filesizes.lists[k]| > 1 && f in filesizes.lists[k];
      IndexIsFiled(files, SizeOf, k);
    }
    var hashes := HashFiles(filesizes);
    forall f | f in files ensures f in Hashed(files) <==> f.size != 0 && |Filed(files, SizeOf, f.size)| > 1 {
      HashedIff(files, f);
    }
    status := 0;
    report := Some(Report(numZeroByteFiles, zeroByteFiles, Duplicates(hashes)));
  }
}
