/** The per-file record of finddupes.py and its lazily computed hash. */
module FileRecords {
  import opened Wrappers
  import opened Os

  /** One discovered regular file. Everything but the hash is fixed when the
      record is made; the hash is computed on first use and cached in
      `lazyHash`. `hashCalls` counts how often the hash function has been run
      for this record. */
  class FileData {
    const path: string
    const size: nat
    const mtime: int
    const ctime: int
    const timestamp: int
    /** The bytes that hashing the file at `path` reads. */
    const content: seq<bv8>
    /** The digest that `hashfile` computes from a file's bytes (the SHA-1
        hex digest). */
    const hashfile: seq<bv8> -> string
    var lazyHash: Option<string>
    ghost var hashCalls: nat

    /** A cached hash is the digest of the content, and it is there exactly
        when the hash function has been run, which happens at most once. */
    ghost predicate Valid()
      reads this
    {
      && (lazyHash.Some? ==> lazyHash.value == hashfile(content))
      && hashCalls == if lazyHash.Some? then 1 else 0
    }

    /** The record describes the file `st` and hashes with `sha1`. */
    ghost predicate Describes(st: Stat, sha1: seq<bv8> -> string) {
      && path == st.path && size == st.size
      && mtime == st.mtime && ctime == st.ctime && timestamp == st.ctime
      && content == st.content && hashfile == sha1
    }

    /** Makes the record for `st`; nothing is hashed yet. */
    constructor (st: Stat, sha1: seq<bv8> -> string)
      ensures Describes(st, sha1)
      ensures lazyHash == None && hashCalls == 0
      ensures Valid()
    {
      path := st.path;
      size := st.size;
      mtime := st.mtime;
      ctime := st.ctime;
      timestamp := st.ctime;
      content := st.content;
      hashfile := sha1;
      lazyHash := None;
      hashCalls := 0;
    }

    /** The `hash` property: the first access runs the hash function and
        stores the digest; later accesses return the stored digest and run
        nothing. */
    method Hash() returns (h: string)
      requires Valid()
      modifies this
      ensures Valid()
      ensures h == hashfile(content) && lazyHash == Some(h)
      ensures old(lazyHash).Some? ==> h == old(lazyHash).value && hashCalls == old(hashCalls)
      ensures old(lazyHash).None? ==> hashCalls == old(hashCalls) + 1
    {
      if lazyHash.None? {
        lazyHash := Some(hashfile(content));
        hashCalls := hashCalls + 1;
      }
      h := lazyHash.value;
    }
  }

  /** The size bucket key of a record. */
  function SizeOf(f: FileData): nat {
    f.size
  }

  /** The hash bucket key of a record: the digest of its content. */
  function DigestOf(f: FileData): string {
    f.hashfile(f.content)
  }
}
