/** The file system as an in-memory tree, with the ways reading it can fail. */
module FileTree {
  import opened Wrappers
  import opened Archive
  import opened Naming

  /** A path as the sequence of its segments, from the tree's root. */
  type Path = seq<string>

  /** What opening and copying a file yields: all of its bytes, a failed
      open, or a copy that broke off after the bytes in `copied`. */
  datatype Access = Readable(data: Bytes) | Unopenable | BreaksAfter(copied: Bytes)

  /** A directory's children are in the order its listing returns them. */
  datatype Node =
    | File(name: string, access: Access)
    | Dir(name: string, listable: bool, children: seq<Node>)

  /** ioutil.ReadDir on a node: the children of a listable directory, a
      failure for anything else (an unreadable directory or a file). */
  function ReadDir(n: Node): Option<seq<Node>>
  {
    if n.Dir? && n.listable then Some(n.children) else None
  }

  /** The first child called `name`, if any. */
  function FindChild(kids: seq<Node>, name: string): Option<Node>
  {
    if kids == [] then None
    else if kids[0].name == name then Some(kids[0])
    else FindChild(kids[1..], name)
  }

  /** FindChild finds a child called `name` exactly when there is one, and
      what it finds is the first of them. */
  lemma {:induction false} FindChildSpec(kids: seq<Node>, name: string)
    ensures FindChild(kids, name).None? <==> forall k :: k in kids ==> k.name != name
    ensures FindChild(kids, name).Some? ==>
      exists i :: 0 <= i < |kids| && kids[i] == FindChild(kids, name).value && kids[i].name == name &&
        (forall j :: 0 <= j < i ==> kids[j].name != name)
  {
    if kids != [] && kids[0].name != name {
      FindChildSpec(kids[1..], name);
      if FindChild(kids, name).Some? {
        var i :| 0 <= i < |kids[1..]| && kids[1..][i] == FindChild(kids, name).value && kids[1..][i].name == name &&
          (forall j :: 0 <= j < i ==> kids[1..][j].name != name);
        assert kids[i + 1] == kids[1..][i];
        forall j | 0 <= j < i + 1
          ensures kids[j].name != name
        {
          if j > 0 {
            assert kids[j] == kids[1..][j - 1];
          }
        }
      } else {
        forall k | k in kids
          ensures k.name != name
        {
          if k != kids[0] {
            assert k in kids[1..];
          }
        }
      }
    } else if kids != [] {
      assert kids[0] == FindChild(kids, name).value;
    }
  }

  /** The node a path leads to from `root`, or None when the path is missing. */
  function Lookup(root: Node, p: Path): Option<Node>
    decreases p
  {
    if p == [] then Some(root)
    else if root.File? then None
    else match FindChild(root.children, p[0])
      case None => None
      case Some(c) => Lookup(c, p[1..])
  }

  /** A file found below some directory: the names of the directories
      between them, the file's name and what reading it yields. */
  datatype Found = Found(rel: Path, name: string, access: Access)

  /** Every file below `n`, in depth-first pre-order, relative to `n`.
      This is the file system's own content: it ignores inclusion rules and
      whether directories can be listed. */
  function Files(n: Node): seq<Found>
    decreases n
  {
    if n.File? then [] else FilesIn(n.children)
  }

  function FilesIn(kids: seq<Node>): seq<Found>
    decreases kids
  {
    if kids == [] then []
    else
      var k := kids[0];
      if k.File? then [Found([], k.name, k.access)] + FilesIn(kids[1..])
      else Under(k.name, Files(k)) + FilesIn(kids[1..])
  }

  /** The same files, seen from one directory higher, through `dir`. */
  function Under(dir: string, fs: seq<Found>): seq<Found>
  {
    seq(|fs|, i requires 0 <= i < |fs| => Found([dir] + fs[i].rel, fs[i].name, fs[i].access))
  }

  /** Every directory below `n` (and `n` itself) can be listed, and every file read. */
  predicate Healthy(n: Node)
    decreases n
  {
    if n.File? then n.access.Readable?
    else n.listable && forall k :: k in n.children ==> Healthy(k)
  }

  /** Every name in every listing below `n` is a proper path segment, as the
      names a directory listing returns are. */
  predicate Clean(n: Node)
    decreases n
  {
    n.File? || forall k :: k in n.children ==> IsSegment(k.name) && Clean(k)
  }
}
