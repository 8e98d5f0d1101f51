/** Directory trees, as `Path.iterdir` and `glob` see them. */
module FileTree {
  /** A file with its content, or a directory with its children, listed in
      the order the file system yields them. */
  datatype Node = File(name: string, content: string) | Dir(name: string, children: seq<Node>)

  /** `parent / name` */
  function ChildPath(parent: string, name: string): string {
    parent + "/" + name
  }

  /** Names starting with a dot, which `glob` wildcards do not match. */
  predicate Hidden(name: string) {
    |name| > 0 && name[0] == '.'
  }
}
