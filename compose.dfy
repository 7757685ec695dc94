/** The outer archive: createTotalZipFile and addConfig. The archive holds
    the configuration first, then one nested archive per configured
    directory, in the configured order. */
module Compose {
  import opened Wrappers
  import opened Archive
  import opened FileTree
  import opened Naming
  import opened Conf
  import opened Walk

  /** The name of the configuration's entry. */
  const ConfigName := "backup.conf"

  /** The output file: whether os.Create succeeds on it, and whether the
      bytes written to it are accepted. */
  datatype OutFile = OutFile(creatable: bool, writable: bool)

  /** The places where createTotalZipFile ends the program with log.Fatalln. */
  datatype Failure =
    | CannotCreate       // "Could not create output file"
    | CannotAddConfig    // "Could not create backup.conf in zip"
    | CannotZipDir       // "Could not zip dir"
    | CannotCreateEntry  // "could not create file"
    | CannotWriteEntry   // "Could not write file"
    | CannotClose        // "Could not close zip file"

  /** How createTotalZipFile ends: the archive it wrote, or the fatal error
      that stopped the program. */
  datatype Outcome = Written(entries: seq<Entry>) | Fatal(reason: Failure)

  /** The entry of one configured directory: its nested archive, named by folderZipName. */
  function DirEntry(fs: Node, d: SourceDir): Entry
  {
    Entry(FolderZipName(d.path), Nested(WalkFrom(fs, d).entries))
  }

  /** The entries of the configured directories, in the configured order. */
  function DirEntries(fs: Node, dirs: seq<SourceDir>): seq<Entry>
  {
    Map(EntryOf(fs), dirs)
  }

  function EntryOf(fs: Node): SourceDir -> Entry
  {
    (d: SourceDir) => DirEntry(fs, d)
  }

  /** f applied to every element, in order. */
  function Map<A, B>(f: A -> B, xs: seq<A>): (ys: seq<B>)
    ensures |ys| == |xs|
  {
    if xs == [] then [] else Map(f, xs[..|xs| - 1]) + [f(xs[|xs| - 1])]
  }

  /** How many elements satisfy p. */
  function Count<A>(p: A -> bool, xs: seq<A>): nat
  {
    if xs == [] then 0 else Count(p, xs[..|xs| - 1]) + (if p(xs[|xs| - 1]) then 1 else 0)
  }

  /** The entries of the archive a run writes, given the serialised configuration. */
  function TotalArchive(fs: Node, c: Config, confBytes: Bytes): seq<Entry>
  {
    [Entry(ConfigName, Raw(confBytes))] + DirEntries(fs, c.dirs)
  }

  /** addConfig: the configuration, as serialised, under "backup.conf". */
  method AddConfig(w: ZipWriter, confBytes: Bytes) returns (err: Option<Fault>)
    requires !w.closed
    modifies w
    ensures !w.closed
    ensures w.entries == old(w.entries) + [Entry(ConfigName, Raw(confBytes))]
    ensures err == None
  {
    w.Add(ConfigName, Raw(confBytes));
    return None;
  }

  /** createTotalZipFile: create the output file, add the configuration and
      the nested archive of every configured directory, and close. Only a
      file that cannot be created or a sink that rejects the bytes stops it. */
  method CreateTotalZipFile(fs: Node, c: Config, confBytes: Bytes, out: OutFile) returns (r: Outcome)
    ensures !out.creatable ==> r == Fatal(CannotCreate)
    ensures out.creatable && !out.writable ==> r == Fatal(CannotClose)
    ensures out.creatable && out.writable ==> r == Written(TotalArchive(fs, c, confBytes))
  {
    if !out.creatable {
      return Fatal(CannotCreate);
    }
    var w := new ZipWriter(out.writable);
    var err := AddConfig(w, confBytes);
    if err.Some? {
      return Fatal(CannotAddConfig);
    }
    ghost var planned := DirEntries(fs, c.dirs);
    var i := 0;
    while i < |c.dirs|
      invariant 0 <= i <= |c.dirs|
      invariant !w.closed
      invariant w.entries == [Entry(ConfigName, Raw(confBytes))] + planned[..i]
    {
      var failed := AddDir(w, fs, c.dirs[i]);
      match failed {
        case Some(reason) => return Fatal(reason);
        case None =>
      }
      MapPrefixSnoc(EntryOf(fs), c.dirs, i);
      i := i + 1;
    }
    assert planned[..i] == planned;
    err := w.Close();
    if err.Some? {
      return Fatal(CannotClose);
    }
    return Written(w.entries);
  }

  /** One round of createTotalZipFile's loop: zip the directory and copy the
      nested archive into a new entry named by folderZipName. zipDir never
      fails, and the writer reports a failing sink only when it is closed. */
  method AddDir(w: ZipWriter, fs: Node, d: SourceDir) returns (r: Option<Failure>)
    requires !w.closed
    modifies w
    ensures !w.closed
    ensures w.entries == old(w.entries) + [EntryOf(fs)(d)]
    ensures r == None
  {
    var outName := FolderZipName(d.path);
    var buf, err := ZipDir(fs, d);
    if err.Some? {
      return Some(CannotZipDir);
    }
    w.Add(outName, Nested(buf));
    return None;
  }

  // ---------------------------------------------------------------------
  // The shape of the archive

  lemma {:induction false} MapAt<A, B>(f: A -> B, xs: seq<A>, i: nat)
    requires i < |xs|
    ensures Map(f, xs)[i] == f(xs[i])
  {
    if i < |xs| - 1 {
      MapAt(f, xs[..|xs| - 1], i);
    }
  }

  /** A prefix of the images grows by the next element's image. */
  lemma MapPrefixSnoc<A, B>(f: A -> B, xs: seq<A>, i: nat)
    requires i < |xs|
    ensures Map(f, xs)[..i + 1] == Map(f, xs)[..i] + [f(xs[i])]
  {
    MapAt(f, xs, i);
    assert Map(f, xs)[..i + 1] == Map(f, xs)[..i] + [Map(f, xs)[i]];
  }

  /** One more element adds its image at the end. */
  lemma MapSnoc<A, B>(f: A -> B, xs: seq<A>, i: nat)
    requires i < |xs|
    ensures Map(f, xs[..i + 1]) == Map(f, xs[..i]) + [f(xs[i])]
  {
    assert xs[..i + 1][..i] == xs[..i];
  }

  /** The archive holds the configuration first, then exactly one entry per
      configured directory, in the configured order. */
  lemma TotalArchiveShape(fs: Node, c: Config, confBytes: Bytes)
    ensures |TotalArchive(fs, c, confBytes)| == |c.dirs| + 1
    ensures TotalArchive(fs, c, confBytes)[0] == Entry(ConfigName, Raw(confBytes))
    ensures forall i :: 0 <= i < |c.dirs| ==> TotalArchive(fs, c, confBytes)[i + 1] == DirEntry(fs, c.dirs[i])
  {
    forall i | 0 <= i < |c.dirs|
      ensures TotalArchive(fs, c, confBytes)[i + 1] == DirEntry(fs, c.dirs[i])
    {
      MapAt(EntryOf(fs), c.dirs, i);
    }
  }

  /** No directory's entry can be mistaken for the configuration's. */
  lemma FolderZipNameIsNotConfigName(d: string)
    ensures FolderZipName(d) != ConfigName
  {
    var n := FolderZipName(d);
    assert n[|n| - 1] == 'p';
  }

  lemma {:induction false} CountAppend<A>(p: A -> bool, a: seq<A>, b: seq<A>)
    ensures Count(p, a + b) == Count(p, a) + Count(p, b)
    decreases |b|
  {
    if b == [] {
      assert a + b == a;
    } else {
      assert (a + b)[..|a + b| - 1] == a + b[..|b| - 1];
      CountAppend(p, a, b[..|b| - 1]);
    }
  }

  /** Counting images by p is counting the originals by q, where q holds
      exactly where p holds of the image. */
  lemma {:induction false} CountMap<A, B>(p: B -> bool, f: A -> B, q: A -> bool, xs: seq<A>)
    requires forall x :: p(f(x)) == q(x)
    ensures Count(p, Map(f, xs)) == Count(q, xs)
  {
    if xs != [] {
      var init := xs[..|xs| - 1];
      CountMap(p, f, q, init);
      MapSnoc(f, xs, |xs| - 1);
      assert xs[..|xs|] == xs;
      CountAppend(p, Map(f, init), [f(xs[|xs| - 1])]);
      assert [f(xs[|xs| - 1])][..0] == [];
    }
  }

  /** Duplicate names are kept, not merged: the archive has one
      "backup.conf" and as many entries called `name` as there are
      configured directories whose folderZipName is `name`. */
  lemma CountInArchive(fs: Node, c: Config, confBytes: Bytes, name: string)
    ensures Count((e: Entry) => e.name == name, TotalArchive(fs, c, confBytes)) ==
      if name == ConfigName then 1
      else Count((d: SourceDir) => FolderZipName(d.path) == name, c.dirs)
  {
    var named := (e: Entry) => e.name == name;
    var head := [Entry(ConfigName, Raw(confBytes))];
    CountAppend(named, head, DirEntries(fs, c.dirs));
    assert head[..0] == [];
    CountMap(named, EntryOf(fs), (d: SourceDir) => FolderZipName(d.path) == name, c.dirs);
    if name == ConfigName {
      NoDirNamedConfig(c.dirs);
    }
  }

  lemma {:induction false} NoDirNamedConfig(dirs: seq<SourceDir>)
    ensures Count((d: SourceDir) => FolderZipName(d.path) == ConfigName, dirs) == 0
  {
    if dirs != [] {
      NoDirNamedConfig(dirs[..|dirs| - 1]);
      FolderZipNameIsNotConfigName(dirs[|dirs| - 1].path);
    }
  }
}
