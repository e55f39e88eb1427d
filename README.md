# finddupes — duplicate detection core, modelled in Dafny

`finddupes.py` finds duplicate files under one or more directory trees.
It first checks that every root given is a directory. It then walks the
roots and makes one `FileData` record per regular file (absolute path,
size, ctime, mtime). It files the records by size in a
`collections.defaultdict(list)`. It sets the size-0 bucket aside and
counts it. It hashes (SHA-1) only the records whose size bucket holds more
than one record, and files those records by hash. Every hash bucket of
more than one record is reported as a duplicate group. A record's hash is
a lazily computed property: it is computed on first access and cached.

The model has five modules:

- `Wrappers` — `Option`.
- `DefaultDict` — a value model of `defaultdict(list)`: the lists by key
  plus the keys in first-insertion order, which is the order Python
  iterates a dict in. `d[k].append(v)` is `Append`. A read `d[k]` is
  `Subscript`, which, as in Python, inserts a missing key with an empty
  list. `del d[k]` is `Delete`. `Index(xs, key)` is the dict built by
  appending every `v` of `xs` under `key(v)`, in order. `Filed(xs, key, k)`
  is the independent reference definition of one of its lists: the
  elements of `xs` with key `k`, in order.
- `Os` — a fixed file-system snapshot, as a class `FileSystem`. `isDir`
  answers `os.path.isdir(os.path.abspath(root))`. `tree(root)` lists the
  regular files `os.walk` reaches under a root, as a `Stat` (path, size,
  mtime, ctime, and the bytes a read yields). The ghost field `walked`
  records which roots were traversed.
- `FileRecords` — the `FileData` class. Its fields fixed at construction
  are `const`. The `lazyprop` cache is the mutable field `lazyHash`, and
  `Hash` is the `hash` property. The ghost counter `hashCalls` records how
  often the hash function ran for that record.
- `FindDupes` — `duplicates`, `hash_files`, the root check and the
  collection loop of `main`, and `main` itself (`FindDuplicates`).
  `FindDuplicates` returns the exit status and the report that the
  printing code consumes.

The loops of the source are methods with loop invariants. Each is proved
against a specification function:

- `CollectBySize` builds `Index(files, SizeOf)` over the records made for
  `Discovered(tree, roots)`.
- `HashFiles` builds `Index(Candidates(filelist), DigestOf)`.
- `FindDuplicates` returns `Resolve(files)`.

The lemmas about those functions state what the tool promises:

- zero-byte files are counted and never hashed;
- only colliding sizes are hashed, each record exactly as often as it was
  found;
- the groups are exactly the hash buckets of more than one record;
- nothing is lost or duplicated by bucketing.

## Model

| member | source | states |
|---|---|---|
| FileRecords.FileData.constructor | finddupes.py:108-114 | the record carries the path, size, mtime and ctime of the file it was made for, its timestamp is the ctime, and nothing is hashed yet |
| FileRecords.FileData.Hash | finddupes.py:78-91 | the `hash` property returns the digest of the file's content; the first access computes and caches it (one hash-function run), and every later access returns the cached value without running the hash function again |
| DefaultDict.Dict.Append | finddupes.py:200 | `d[k].append(v)` adds `v` at the end of the list under `k` and inserts `k` last in iteration order if it was missing; no other list changes |
| DefaultDict.Dict.Subscript | finddupes.py:205 | reading `d[k]` on a defaultdict yields the list under `k`, or the empty list, and leaves `k` present |
| DefaultDict.Dict.Delete | finddupes.py:213 | `del d[k]` removes exactly the key `k`, which must be present (KeyError otherwise) |
| DefaultDict.IndexIsFiled | finddupes.py:195-200 | after filing `xs` by key, a key is present exactly when some element has it, and its list is exactly the elements with that key in their order in `xs` |
| DefaultDict.FiledCount | finddupes.py:195-200 | each element is filed under its own key exactly as often as it occurs, and under no other key |
| DefaultDict.IndexMembers | finddupes.py:195-200 | filing by key neither loses nor duplicates any value: the values stored are a permutation of the input |
| DefaultDict.AppendMembers | finddupes.py:200 | one append adds exactly one value to the values stored |
| FindDupes.DuplicatesAmong | finddupes.py:147-152 | over the given keys, yields `(k, list)` exactly for the keys whose list has more than one member, with the list unchanged, in key order, each key once |
| FindDupes.Duplicates | finddupes.py:147-152 | `duplicates(d)` yields a pair exactly for each key of `d` whose list has more than one member, with that list unchanged and no key twice |
| FindDupes.CandidatesIff | finddupes.py:160-163 | a record is hashed by `hash_files` exactly when it sits in a size bucket of more than one record |
| FindDupes.BucketIsCandidate | finddupes.py:161-163 | every member of a bucket of more than one record is hashed |
| FindDupes.FirstNonDirectory | finddupes.py:171-175 | finds the first root, in argument order, that is not a directory, or reports that every root is a directory |
| FindDupes.FileBySize | finddupes.py:198-200 | for one walked root, makes one fresh, unhashed record per file found, in walk order, and appends each to the list of its size |
| FindDupes.CollectBySize | finddupes.py:195-201 | walks every root once, in order; the records correspond one for one and in order to the files found, are distinct and unhashed, and the size dict is exactly these records filed by size |
| FindDupes.HashBucket | finddupes.py:162-164 | hashes every record of one bucket and appends it to the list of its digest; caches the digest in exactly those records |
| FindDupes.HashFiles | finddupes.py:156-166 | the returned dict is exactly the records of the size buckets of more than one member, in iteration order, filed by digest; each of those records has its digest cached after exactly one hash-function run, and no other record is touched |
| FindDupes.NonEmptyBySize | finddupes.py:205-213 | the buckets handed to `hash_files` are well formed (the read of `filesizes[0]` makes the `del` safe) |
| FindDupes.NonEmptyBySizeIsFiled | finddupes.py:205-213 | the buckets handed to `hash_files` are those of every non-zero size that occurs, each holding the records of that size in discovery order |
| FindDupes.HashedIff | finddupes.py:160-164 | a record is hashed exactly when it was discovered, is not empty, and shares its size with another record |
| FindDupes.DuplicatesCount | finddupes.py:147-152 | over keys without repeats, a value occurs among the yielded lists exactly as often as in its own key's list when that list has more than one member, and otherwise not at all |
| FindDupes.HashedCount | finddupes.py:156-166 | every record of a non-zero size shared with another record is hashed exactly as often as it was discovered; no other record is hashed |
| FindDupes.CollidingCountIsLength | finddupes.py:160-164 | the records `hash_files` visits number the total size of the buckets of more than one member |
| FindDupes.HashEntries | finddupes.py:156-166 | the dict `hash_files` returns holds exactly the hashed records, so its entry count is the total size of the size buckets of more than one member |
| FindDupes.ZeroByteFiles | finddupes.py:204-205 | the zero-byte count is the number of discovered records of size 0, and every one of them is in the zero-byte list, in discovery order |
| FindDupes.GroupsExact | finddupes.py:215-218 | the duplicate groups are exactly the hash buckets of more than one hashed record: for a digest, the hashed records with that digest, in hashing order |
| FindDupes.GroupMembers | finddupes.py:213-218 | every group has at least two members, all with the group's digest, all discovered, none of size 0, each sharing its size with another record |
| FindDupes.ReportedIff | finddupes.py:215-221 | a record appears in a duplicate group exactly when it is hashed and another hashed record has the same digest |
| FindDupes.FindDuplicates | finddupes.py:169-242 | `main`: status 1 exactly when some root is not a directory, and then nothing is walked; otherwise status 0, every root walked once, and the report is that of the records found; a record's hash is computed, exactly once, precisely when it is non-empty and shares its size with another record, and never otherwise |

## Left out

- `os.walk`, `os.stat`, `os.path.abspath` and `os.path.join`: the file system is the fixed snapshot `Os.FileSystem`. Paths in a `Stat` are taken to be absolute already. The directory triples of `os.walk` are flattened into one list of files per root. Symlinks, special files, permission errors and files changing during the run are not modelled.
- `FileData.hashfile` (SHA-1 over 10240-byte chunks): the model uses an arbitrary function from contents to digests, passed in as `sha1`. The model takes no position on whether it is collision-free. An I/O error while hashing is not modelled.
- `pprint_size` and `pprint_timestamp`: formatting only. Timestamps are modelled as integers, where Python uses floats, and are only carried.
- The Excel export (`--xls`, openpyxl), including the loop at lines 206-212. That loop writes the fields and the `hash` of the stale variable `f`, the last record built by the collection loop, instead of each zero-byte file. In Excel mode it can therefore hash one record that the rest of the program would not hash. `FindDupes.FindDuplicates` models the text mode, in which that loop does not run.
- `print`, `docopt` and `sys.exit`: the output is the `Report` value and the exit status that `FindDupes.FindDuplicates` returns. The message printed for a bad root is not modelled.
- `FileData.__repr__` and `FileData.__str__`: string formatting only.
- Dict iteration order: the model uses insertion order, which is what CPython 3.7 and later guarantee. Under Python 2, `items()` order is arbitrary. The properties stated about group membership hold for any key order, but the order of groups in the report does not.
- `FindDupes.FindDuplicates`: the zero-byte list is part of the report. In the source, that list is read only by the Excel export; the text mode prints just the count.
