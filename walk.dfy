/** The directory walk that fills one nested archive: addFile, addFiles and
    zipDir. The walk is specified by WalkDir/WalkList, which follow the code
    branch for branch; the methods are proved against them, and the lemmas
    relate the walk to the files the tree holds. */
module Walk {
  import opened Wrappers
  import opened Archive
  import opened FileTree
  import opened Naming
  import opened Conf

  /** An inclusion rule: ShouldInclude on the full path of a file. */
  type Rule = Path -> bool

  /** What a walk leaves behind: the entries it added and the error it returned. */
  datatype Walked = Walked(entries: seq<Entry>, err: Option<Fault>)

  /** The prefix of an entry name for the directories `rel` it lies under:
      each directory's name followed by "/". */
  function ZipPrefix(rel: Path): string
  {
    if rel == [] then "" else ZipPrefix(rel[..|rel| - 1]) + rel[|rel| - 1] + "/"
  }

  /** The bytes io.Copy moves into the entry before it stops. */
  function Copied(a: Access): Bytes
  {
    match a
    case Readable(data) => data
    case Unopenable => []
    case BreaksAfter(copied) => copied
  }

  /** addFile on file `f` of directory `dir`, with entry-name prefix `pre`:
      a file that cannot be opened adds nothing; otherwise the entry is
      created and gets whatever was copied before the copy stopped. */
  function FileStep(f: Node, dir: Path, pre: string): Walked
    requires f.File?
  {
    if f.access.Unopenable? then Walked([], Some(OpenFailed(dir + [f.name])))
    else
      var e := Entry(pre + f.name, Raw(Copied(f.access)));
      if f.access.BreaksAfter? then Walked([e], Some(ReadFailed(dir + [f.name])))
      else Walked([e], None)
  }

  /** addFiles on directory node `n` at path `dir`: a directory that cannot
      be listed yields its error and nothing else. */
  function WalkDir(inc: Rule, n: Node, dir: Path, pre: string): Walked
    decreases n
  {
    if n.Dir? && n.listable then WalkList(inc, n.children, dir, pre)
    else Walked([], Some(ListFailed(dir)))
  }

  /** The loop of addFiles over the listing `kids`. A file the rule leaves
      out is skipped; a file whose addFile fails ends the loop with that
      error; a directory is always walked, and whatever its walk returns is
      dropped. */
  function WalkList(inc: Rule, kids: seq<Node>, dir: Path, pre: string): Walked
    decreases kids
  {
    if kids == [] then Walked([], None)
    else
      var k := kids[0];
      var rest := WalkList(inc, kids[1..], dir, pre);
      if k.File? then
        if !inc(dir + [k.name]) then rest
        else
          var s := FileStep(k, dir, pre);
          if s.err.Some? then s else Walked(s.entries + rest.entries, rest.err)
      else
        var sub := WalkDir(inc, k, dir + [k.name], pre + k.name + "/");
        Walked(sub.entries + rest.entries, rest.err)
  }

  // ---------------------------------------------------------------------
  // The code

  /** addFile: open the file, create its entry, copy its bytes. */
  method AddFile(w: ZipWriter, f: Node, dir: Path, pre: string) returns (err: Option<Fault>)
    requires f.File? && !w.closed
    modifies w
    ensures !w.closed
    ensures w.entries == old(w.entries) + FileStep(f, dir, pre).entries
    ensures err == FileStep(f, dir, pre).err
  {
    if f.access.Unopenable? {
      return Some(OpenFailed(dir + [f.name]));
    }
    w.Add(pre + f.name, Raw(Copied(f.access)));
    if f.access.BreaksAfter? {
      return Some(ReadFailed(dir + [f.name]));
    }
    return None;
  }

  /** addFiles: list directory `n`, add the files the rule accepts and
      recurse into every subdirectory, ignoring the recursive call's error. */
  method AddFiles(w: ZipWriter, inc: Rule, n: Node, dir: Path, pre: string) returns (err: Option<Fault>)
    requires !w.closed
    modifies w
    decreases n
    ensures !w.closed
    ensures w.entries == old(w.entries) + WalkDir(inc, n, dir, pre).entries
    ensures err == WalkDir(inc, n, dir, pre).err
  {
    var listing := ReadDir(n);
    if listing.None? {
      return Some(ListFailed(dir));
    }
    var files := listing.value;
    var i := 0;
    while i < |files|
      invariant 0 <= i <= |files|
      invariant !w.closed
      invariant old(w.entries) + WalkList(inc, files, dir, pre).entries
        == w.entries + WalkList(inc, files[i..], dir, pre).entries
      invariant WalkList(inc, files, dir, pre).err == WalkList(inc, files[i..], dir, pre).err
    {
      var file := files[i];
      assert files[i..][1..] == files[i + 1..];
      var p := dir + [file.name];
      if file.File? {
        if inc(p) {
          var e := AddFile(w, file, dir, pre);
          if e.Some? {
            return e;
          }
        }
      } else {
        var ignored := AddFiles(w, inc, file, p, pre + file.name + "/");
      }
      i := i + 1;
    }
    return None;
  }

  /** What addFiles does when started on the configured directory's path.
      The empty path names no file at all (opening "" fails), and a path
      that does not lead to a node cannot be listed either. */
  function WalkFrom(fs: Node, d: SourceDir): Walked
  {
    var root := Segments(d.path);
    if d.path == [] then Walked([], Some(ListFailed(root)))
    else match Lookup(fs, root)
      case None => Walked([], Some(ListFailed(root)))
      case Some(n) => WalkDir(d.shouldInclude, n, root, "")
  }

  /** zipDir: the nested archive of one configured directory, written to an
      in-memory buffer. The walk's error is dropped and the buffer cannot
      fail, so zipDir always succeeds. */
  method ZipDir(fs: Node, d: SourceDir) returns (buf: seq<Entry>, err: Option<Fault>)
    ensures buf == WalkFrom(fs, d).entries
    ensures d.path == [] ==> buf == []
    ensures err == None
  {
    var w := new ZipWriter(true);
    var root := Segments(d.path);
    var ignored: Option<Fault>;
    if d.path == [] {
      ignored := Some(ListFailed(root));
    } else {
      match Lookup(fs, root) {
        case None =>
          ignored := Some(ListFailed(root));
        case Some(n) =>
          ignored := AddFiles(w, d.shouldInclude, n, root, "");
      }
    }
    err := w.Close();
    if err.Some? {
      return [], err;
    }
    buf := w.entries;
  }
}
