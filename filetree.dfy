/** A directory snapshot: the path -> file map the operations read and the
    immutable `with_new_file` update they return. */
module FileTree {
  /** A file's text and its permission bits. */
  datatype File = File(content: string, mode: nat)

  /** Files by path, and the paths that exist as directories. */
  datatype Tree = Tree(files: map<string, File>, dirs: set<string>)

  /** Permissions `with_new_file` gives when none are passed: 0o644. */
  const DefaultMode: nat := 0x1A4

  /** Permissions of an installed hook: 0o755. */
  const HookMode: nat := 0x1ED

  /** A new snapshot with `path` holding `content`; every other path and
      every directory is as before. */
  function WithNewFile(t: Tree, path: string, content: string, mode: nat): (u: Tree)
    ensures path in u.files && u.files[path] == File(content, mode)
    ensures forall p :: p != path ==> (p in u.files <==> p in t.files)
    ensures forall p :: p != path && p in t.files ==> u.files[p] == t.files[p]
    ensures u.dirs == t.dirs
  {
    Tree(t.files[path := File(content, mode)], t.dirs)
  }
}
