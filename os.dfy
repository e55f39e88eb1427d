/** The part of the operating system finddupes.py consults: whether a path
    is a directory, and what a recursive walk of a root finds. */
module Os {

  /** What the tool learns about one regular file: its absolute path, the
      size and the two timestamps `os.stat` reports, and the bytes a later
      read of the file yields. */
  datatype Stat = Stat(path: string, size: nat, mtime: int, ctime: int, content: seq<bv8>)

  /** A fixed snapshot of the file system. `isDir` answers `os.path.isdir`
      for a root as given; `tree` lists, for a root, every regular file that
      `os.walk` reaches under it, in walk order. `walked` records which roots
      have been walked, so that a caller's contract can say whether any
      traversal happened. */
  class FileSystem {
    const isDir: string -> bool
    const tree: string -> seq<Stat>
    ghost var walked: seq<string>

    constructor (isDir: string -> bool, tree: string -> seq<Stat>)
      ensures this.isDir == isDir && this.tree == tree
      ensures walked == []
    {
      this.isDir := isDir;
      this.tree := tree;
      walked := [];
    }

    /** Walks `root` and reports the regular files below it. */
    method Walk(root: string) returns (files: seq<Stat>)
      modifies this
      ensures files == tree(root)
      ensures walked == old(walked) + [root]
    {
      files := tree(root);
      walked := walked + [root];
    }
  }
}
