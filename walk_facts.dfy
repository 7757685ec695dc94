/** What the directory walk adds, stated against the files the tree holds:
    which files become entries, under which names, in which order, and
    which errors can reach the caller. */
module WalkFacts {
  import opened Wrappers
  import opened Archive
  import opened FileTree
  import opened Naming
  import opened Walk

  /** The full path ShouldInclude is asked about for file `f` found below `dir`. */
  function FullPath(dir: Path, f: Found): Path
  {
    dir + f.rel + [f.name]
  }

  /** The entry file `f` gets below a walk started with prefix `pre`. */
  function EntryFor(pre: string, f: Found): Entry
  {
    Entry(pre + ZipPrefix(f.rel) + f.name, Raw(Copied(f.access)))
  }

  /** The rule accepts `f` and `f` can be opened. */
  predicate Wanted(inc: Rule, dir: Path, f: Found)
  {
    inc(FullPath(dir, f)) && !f.access.Unopenable?
  }

  /** The reference: the entry of every wanted file, in the order given. */
  function Planned(inc: Rule, dir: Path, pre: string, fs: seq<Found>): seq<Entry>
    decreases |fs|
  {
    if fs == [] then []
    else (if Wanted(inc, dir, fs[0]) then [EntryFor(pre, fs[0])] else []) + Planned(inc, dir, pre, fs[1..])
  }

  /** a occurs in b in order, possibly with gaps. */
  predicate Subseq<T(==)>(a: seq<T>, b: seq<T>)
    decreases |b|
  {
    a == [] || (b != [] && ((a[0] == b[0] && Subseq(a[1..], b[1..])) || Subseq(a, b[1..])))
  }

  // ---------------------------------------------------------------------
  // The reference listing

  /** An entry is planned exactly when it is the entry of a wanted file. */
  lemma {:induction false} PlannedMembers(inc: Rule, dir: Path, pre: string, fs: seq<Found>, e: Entry)
    ensures e in Planned(inc, dir, pre, fs) <==>
      exists i :: 0 <= i < |fs| && Wanted(inc, dir, fs[i]) && e == EntryFor(pre, fs[i])
    decreases |fs|
  {
    if fs != [] {
      PlannedMembers(inc, dir, pre, fs[1..], e);
      var head := if Wanted(inc, dir, fs[0]) then [EntryFor(pre, fs[0])] else [];
      assert Planned(inc, dir, pre, fs) == head + Planned(inc, dir, pre, fs[1..]);
      if e in Planned(inc, dir, pre, fs) {
        if e in head {
          assert Wanted(inc, dir, fs[0]) && e == EntryFor(pre, fs[0]);
        } else {
          var j :| 0 <= j < |fs[1..]| && Wanted(inc, dir, fs[1..][j]) && e == EntryFor(pre, fs[1..][j]);
          assert fs[1..][j] == fs[j + 1];
        }
      }
      if exists i :: 0 <= i < |fs| && Wanted(inc, dir, fs[i]) && e == EntryFor(pre, fs[i]) {
        var i :| 0 <= i < |fs| && Wanted(inc, dir, fs[i]) && e == EntryFor(pre, fs[i]);
        if i > 0 {
          assert fs[1..][i - 1] == fs[i];
        }
      }
    }
  }

  lemma {:induction false} PlannedAppend(inc: Rule, dir: Path, pre: string, a: seq<Found>, b: seq<Found>)
    ensures Planned(inc, dir, pre, a + b) == Planned(inc, dir, pre, a) + Planned(inc, dir, pre, b)
    decreases |a|
  {
    if a != [] {
      assert (a + b)[0] == a[0];
      assert (a + b)[1..] == a[1..] + b;
      PlannedAppend(inc, dir, pre, a[1..], b);
    } else {
      assert a + b == b;
    }
  }

  lemma {:induction false} ZipPrefixCons(d: string, rel: Path)
    ensures ZipPrefix([d] + rel) == d + "/" + ZipPrefix(rel)
    decreases |rel|
  {
    if rel != [] {
      var init := rel[..|rel| - 1];
      assert ([d] + rel)[..|rel|] == [d] + init;
      ZipPrefixCons(d, init);
    }
  }

  /** The files of a subdirectory, planned from the parent, are those planned
      from the subdirectory itself with its path and prefix extended. */
  lemma {:induction false} PlannedUnder(inc: Rule, dir: Path, pre: string, d: string, fs: seq<Found>)
    ensures Planned(inc, dir, pre, Under(d, fs)) == Planned(inc, dir + [d], pre + d + "/", fs)
    decreases |fs|
  {
    var u := Under(d, fs);
    if fs != [] {
      var f, g := fs[0], u[0];
      assert FullPath(dir, g) == FullPath(dir + [d], f);
      ZipPrefixCons(d, f.rel);
      assert EntryFor(pre, g) == EntryFor(pre + d + "/", f);
      assert u[1..] == Under(d, fs[1..]);
      PlannedUnder(inc, dir, pre, d, fs[1..]);
    }
  }

  // ---------------------------------------------------------------------
  // The walk against the reference

  /** In a tree where every directory can be listed and every file read, the
      walk adds exactly the entries of the files the rule accepts, in
      depth-first pre-order, and returns no error. */
  lemma {:induction false} HealthyWalk(inc: Rule, n: Node, dir: Path, pre: string)
    requires n.Dir? && Healthy(n)
    ensures WalkDir(inc, n, dir, pre) == Walked(Planned(inc, dir, pre, Files(n)), None)
    decreases n, 1
  {
    HealthyWalkList(inc, n.children, dir, pre);
  }

  lemma {:induction false} HealthyWalkList(inc: Rule, kids: seq<Node>, dir: Path, pre: string)
    requires forall k :: k in kids ==> Healthy(k)
    ensures WalkList(inc, kids, dir, pre) == Walked(Planned(inc, dir, pre, FilesIn(kids)), None)
    decreases kids, 0
  {
    if kids != [] {
      var k := kids[0];
      assert k in kids;
      HealthyWalkList(inc, kids[1..], dir, pre);
      if k.File? {
        HealthyFileFirst(inc, kids, dir, pre);
      } else {
        HealthyWalk(inc, k, dir + [k.name], pre + k.name + "/");
        HealthyDirFirst(inc, kids, dir, pre);
      }
    }
  }

  /** The step of HealthyWalkList for a readable file at the head of the listing. */
  lemma HealthyFileFirst(inc: Rule, kids: seq<Node>, dir: Path, pre: string)
    requires kids != [] && kids[0].File? && kids[0].access.Readable?
    requires WalkList(inc, kids[1..], dir, pre) == Walked(Planned(inc, dir, pre, FilesIn(kids[1..])), None)
    ensures WalkList(inc, kids, dir, pre) == Walked(Planned(inc, dir, pre, FilesIn(kids)), None)
  {
    var k := kids[0];
    var f := Found([], k.name, k.access);
    var fs := [f] + FilesIn(kids[1..]);
    assert fs[1..] == FilesIn(kids[1..]);
    assert FullPath(dir, f) == dir + [k.name];
    assert EntryFor(pre, f) == Entry(pre + k.name, Raw(Copied(k.access)));
    var later := Planned(inc, dir, pre, FilesIn(kids[1..]));
    assert Planned(inc, dir, pre, fs) ==
      (if Wanted(inc, dir, f) then [EntryFor(pre, f)] else []) + later;
    if inc(dir + [k.name]) {
      assert FileStep(k, dir, pre) == Walked([EntryFor(pre, f)], None);
    } else {
      assert [] + later == later;
    }
  }

  /** The step of HealthyWalkList for a directory at the head of the listing
      whose own walk went through. */
  lemma HealthyDirFirst(inc: Rule, kids: seq<Node>, dir: Path, pre: string)
    requires kids != [] && kids[0].Dir?
    requires WalkDir(inc, kids[0], dir + [kids[0].name], pre + kids[0].name + "/")
      == Walked(Planned(inc, dir + [kids[0].name], pre + kids[0].name + "/", Files(kids[0])), None)
    requires WalkList(inc, kids[1..], dir, pre) == Walked(Planned(inc, dir, pre, FilesIn(kids[1..])), None)
    ensures WalkList(inc, kids, dir, pre) == Walked(Planned(inc, dir, pre, FilesIn(kids)), None)
  {
    var k := kids[0];
    PlannedUnder(inc, dir, pre, k.name, Files(k));
    PlannedAppend(inc, dir, pre, Under(k.name, Files(k)), FilesIn(kids[1..]));
  }

  /** In any tree, failures or not, the walk adds a selection of the
      reference entries, in their order: nothing else, nothing twice. */
  lemma {:induction false} WalkWithinPlanned(inc: Rule, n: Node, dir: Path, pre: string)
    ensures Subseq(WalkDir(inc, n, dir, pre).entries, Planned(inc, dir, pre, Files(n)))
    decreases n, 1
  {
    if n.Dir? && n.listable {
      WalkListWithinPlanned(inc, n.children, dir, pre);
    }
  }

  lemma {:induction false} WalkListWithinPlanned(inc: Rule, kids: seq<Node>, dir: Path, pre: string)
    ensures Subseq(WalkList(inc, kids, dir, pre).entries, Planned(inc, dir, pre, FilesIn(kids)))
    decreases kids, 0
  {
    if kids != [] {
      var k := kids[0];
      var rest := WalkList(inc, kids[1..], dir, pre);
      var later := Planned(inc, dir, pre, FilesIn(kids[1..]));
      WalkListWithinPlanned(inc, kids[1..], dir, pre);
      if k.File? {
        var f := Found([], k.name, k.access);
        var fs := [f] + FilesIn(kids[1..]);
        assert fs[1..] == FilesIn(kids[1..]);
        assert FullPath(dir, f) == dir + [k.name];
        var head := if Wanted(inc, dir, f) then [EntryFor(pre, f)] else [];
        assert Planned(inc, dir, pre, fs) == head + later;
        if inc(dir + [k.name]) {
          var s := FileStep(k, dir, pre);
          assert EntryFor(pre, f) == Entry(pre + k.name, Raw(Copied(k.access)));
          assert s.entries == [] || s.entries == head;
          if s.entries != [] {
            assert s.entries[1..] == [];
          }
          assert Subseq(s.entries, head);
          if s.err.Some? {
            SubseqConcat(s.entries, head, [], later);
            assert s.entries + [] == s.entries;
          } else {
            SubseqConcat(s.entries, head, rest.entries, later);
          }
        } else {
          SubseqExtendFront(rest.entries, later, head);
        }
      } else {
        var sub := WalkDir(inc, k, dir + [k.name], pre + k.name + "/");
        WalkWithinPlanned(inc, k, dir + [k.name], pre + k.name + "/");
        PlannedUnder(inc, dir, pre, k.name, Files(k));
        PlannedAppend(inc, dir, pre, Under(k.name, Files(k)), FilesIn(kids[1..]));
        SubseqConcat(sub.entries, Planned(inc, dir, pre, Under(k.name, Files(k))), rest.entries, later);
      }
    }
  }

  lemma {:induction false} SubseqExtendFront<T>(a: seq<T>, b: seq<T>, c: seq<T>)
    requires Subseq(a, b)
    ensures Subseq(a, c + b)
    decreases |c|
  {
    if c != [] {
      assert (c + b)[1..] == c[1..] + b;
      SubseqExtendFront(a, b, c[1..]);
    } else {
      assert c + b == b;
    }
  }

  lemma {:induction false} SubseqConcat<T>(a1: seq<T>, b1: seq<T>, a2: seq<T>, b2: seq<T>)
    requires Subseq(a1, b1) && Subseq(a2, b2)
    ensures Subseq(a1 + a2, b1 + b2)
    decreases |b1|
  {
    if a1 == [] {
      SubseqExtendFront(a2, b2, b1);
      assert a1 + a2 == a2;
    } else {
      assert (b1 + b2)[0] == b1[0] && (b1 + b2)[1..] == b1[1..] + b2;
      assert (a1 + a2)[0] == a1[0] && (a1 + a2)[1..] == a1[1..] + a2;
      if a1[0] == b1[0] && Subseq(a1[1..], b1[1..]) {
        SubseqConcat(a1[1..], b1[1..], a2, b2);
      } else {
        SubseqConcat(a1, b1[1..], a2, b2);
      }
    }
  }

  /** Whatever occurs in a subsequence occurs in the whole. */
  lemma {:induction false} SubseqMembers<T>(a: seq<T>, b: seq<T>, x: T)
    requires Subseq(a, b) && x in a
    ensures x in b
    decreases |b|
  {
    if a[0] == b[0] && Subseq(a[1..], b[1..]) {
      if x != a[0] {
        assert x in a[1..];
        SubseqMembers(a[1..], b[1..], x);
      }
    } else {
      SubseqMembers(a, b[1..], x);
    }
  }

  /** Whatever the tree, every entry the walk adds is the entry of a file
      below the directory that the rule accepts and that could be opened. */
  lemma WalkEntriesAreWanted(inc: Rule, n: Node, dir: Path, pre: string, e: Entry)
    requires e in WalkDir(inc, n, dir, pre).entries
    ensures exists i :: 0 <= i < |Files(n)| && Wanted(inc, dir, Files(n)[i]) && e == EntryFor(pre, Files(n)[i])
  {
    WalkWithinPlanned(inc, n, dir, pre);
    SubseqMembers(WalkDir(inc, n, dir, pre).entries, Planned(inc, dir, pre, Files(n)), e);
    PlannedMembers(inc, dir, pre, Files(n), e);
  }

  /** In a healthy tree every file the rule accepts becomes an entry. */
  lemma HealthyFileIncluded(inc: Rule, n: Node, dir: Path, pre: string, i: nat)
    requires n.Dir? && Healthy(n) && i < |Files(n)|
    ensures Files(n)[i].access.Readable?
    ensures inc(FullPath(dir, Files(n)[i])) ==>
      EntryFor(pre, Files(n)[i]) in WalkDir(inc, n, dir, pre).entries
  {
    HealthyFiles(n, Files(n)[i]);
    HealthyWalk(inc, n, dir, pre);
    PlannedMembers(inc, dir, pre, Files(n), EntryFor(pre, Files(n)[i]));
  }

  /** Every file of a healthy tree can be read. */
  lemma {:induction false} HealthyFiles(n: Node, f: Found)
    requires Healthy(n) && f in Files(n)
    ensures f.access.Readable?
    decreases n, 1
  {
    HealthyFilesIn(n.children, f);
  }

  lemma {:induction false} HealthyFilesIn(kids: seq<Node>, f: Found)
    requires (forall k :: k in kids ==> Healthy(k)) && f in FilesIn(kids)
    ensures f.access.Readable?
    decreases kids, 0
  {
    var k := kids[0];
    assert Healthy(k);
    if k.File? {
      if f != Found([], k.name, k.access) {
        assert f in FilesIn(kids[1..]);
        HealthyFilesIn(kids[1..], f);
      }
    } else if f in Under(k.name, Files(k)) {
      var j :| 0 <= j < |Files(k)| && Under(k.name, Files(k))[j] == f;
      HealthyFiles(k, Files(k)[j]);
    } else {
      assert f in FilesIn(kids[1..]);
      HealthyFilesIn(kids[1..], f);
    }
  }

  // ---------------------------------------------------------------------
  // The inclusion rule, errors and names

  /** Two rules that agree on every file below the directory give the same
      walk: the rule is never asked about a directory. */
  lemma {:induction false} RuleOnlyAtFiles(inc1: Rule, inc2: Rule, n: Node, dir: Path, pre: string)
    requires forall f :: f in Files(n) ==> inc1(FullPath(dir, f)) == inc2(FullPath(dir, f))
    ensures WalkDir(inc1, n, dir, pre) == WalkDir(inc2, n, dir, pre)
    decreases n, 1
  {
    if n.Dir? && n.listable {
      RuleOnlyAtFilesIn(inc1, inc2, n.children, dir, pre);
    }
  }

  lemma {:induction false} RuleOnlyAtFilesIn(inc1: Rule, inc2: Rule, kids: seq<Node>, dir: Path, pre: string)
    requires forall f :: f in FilesIn(kids) ==> inc1(FullPath(dir, f)) == inc2(FullPath(dir, f))
    ensures WalkList(inc1, kids, dir, pre) == WalkList(inc2, kids, dir, pre)
    decreases kids, 0
  {
    if kids != [] {
      var k := kids[0];
      var fs := FilesIn(kids);
      RuleOnlyAtFilesIn(inc1, inc2, kids[1..], dir, pre);
      if k.File? {
        var f := Found([], k.name, k.access);
        assert f in fs;
        assert FullPath(dir, f) == dir + [k.name];
      } else {
        forall g | g in Files(k)
          ensures inc1(FullPath(dir + [k.name], g)) == inc2(FullPath(dir + [k.name], g))
        {
          var j :| 0 <= j < |Files(k)| && Files(k)[j] == g;
          var u := Under(k.name, Files(k))[j];
          assert u in fs;
          assert FullPath(dir, u) == FullPath(dir + [k.name], g);
        }
        RuleOnlyAtFiles(inc1, inc2, k, dir + [k.name], pre + k.name + "/");
      }
    }
  }

  /** An error about one of the directory's own files. */
  predicate OwnFileError(kids: seq<Node>, dir: Path, e: Fault)
  {
    exists k :: k in kids && k.File? && (e == OpenFailed(dir + [k.name]) || e == ReadFailed(dir + [k.name]))
  }

  /** The only error the walk of a directory returns is its own: the
      directory cannot be listed, or one of its own files cannot be opened
      or copied. An error inside a subdirectory never reaches the caller. */
  lemma WalkErrorIsOwn(inc: Rule, n: Node, dir: Path, pre: string)
    ensures WalkDir(inc, n, dir, pre).err.Some? ==>
      || WalkDir(inc, n, dir, pre).err.value == ListFailed(dir)
      || (n.Dir? && OwnFileError(n.children, dir, WalkDir(inc, n, dir, pre).err.value))
  {
    if n.Dir? && n.listable {
      WalkListErrorIsOwn(inc, n.children, dir, pre);
    }
  }

  lemma {:induction false} WalkListErrorIsOwn(inc: Rule, kids: seq<Node>, dir: Path, pre: string)
    ensures WalkList(inc, kids, dir, pre).err.Some? ==>
      OwnFileError(kids, dir, WalkList(inc, kids, dir, pre).err.value)
    decreases kids
  {
    if kids != [] {
      var k := kids[0];
      var r := WalkList(inc, kids, dir, pre);
      var rest := WalkList(inc, kids[1..], dir, pre);
      WalkListErrorIsOwn(inc, kids[1..], dir, pre);
      if r.err.Some? {
        if k.File? && inc(dir + [k.name]) && FileStep(k, dir, pre).err.Some? {
          assert k in kids;
        } else {
          assert r.err == rest.err;
          var k' :| k' in kids[1..] && k'.File?
            && (r.err.value == OpenFailed(dir + [k'.name]) || r.err.value == ReadFailed(dir + [k'.name]));
          assert k' in kids;
        }
      }
    }
  }

  /** The loop over a listing stops at the first accepted file that fails,
      and nowhere else: walking a + b is walking a, then, if that went
      through, walking b. */
  lemma {:induction false} WalkListAppend(inc: Rule, a: seq<Node>, b: seq<Node>, dir: Path, pre: string)
    ensures WalkList(inc, a + b, dir, pre) ==
      var wa, wb := WalkList(inc, a, dir, pre), WalkList(inc, b, dir, pre);
      if wa.err.Some? then wa else Walked(wa.entries + wb.entries, wb.err)
    decreases |a|
  {
    var wb := WalkList(inc, b, dir, pre);
    if a == [] {
      assert a + b == b;
      assert [] + wb.entries == wb.entries;
    } else {
      assert (a + b)[0] == a[0] && (a + b)[1..] == a[1..] + b;
      WalkListAppend(inc, a[1..], b, dir, pre);
      var r1 := WalkList(inc, a[1..], dir, pre);
      var k := a[0];
      if k.File? {
        if inc(dir + [k.name]) {
          var s := FileStep(k, dir, pre);
          assert s.entries + r1.entries + wb.entries == s.entries + (r1.entries + wb.entries);
        }
      } else {
        var sub := WalkDir(inc, k, dir + [k.name], pre + k.name + "/");
        assert sub.entries + r1.entries + wb.entries == sub.entries + (r1.entries + wb.entries);
      }
    }
  }

  /** Every file found below a clean tree has a clean relative path and name. */
  lemma {:induction false} CleanFiles(n: Node, f: Found)
    requires Clean(n) && f in Files(n)
    ensures IsSegment(f.name) && forall i :: 0 <= i < |f.rel| ==> IsSegment(f.rel[i])
    decreases n, 1
  {
    CleanFilesIn(n.children, f);
  }

  lemma {:induction false} CleanFilesIn(kids: seq<Node>, f: Found)
    requires (forall k :: k in kids ==> IsSegment(k.name) && Clean(k)) && f in FilesIn(kids)
    ensures IsSegment(f.name) && forall i :: 0 <= i < |f.rel| ==> IsSegment(f.rel[i])
    decreases kids, 0
  {
    var k := kids[0];
    assert IsSegment(k.name) && Clean(k);
    if k.File? {
      if f != Found([], k.name, k.access) {
        assert f in FilesIn(kids[1..]);
        CleanFilesIn(kids[1..], f);
      }
    } else if f in Under(k.name, Files(k)) {
      var j :| 0 <= j < |Files(k)| && Under(k.name, Files(k))[j] == f;
      var g := Files(k)[j];
      CleanFiles(k, g);
      assert f.rel == [k.name] + g.rel;
      assert forall i :: 1 <= i < |f.rel| ==> f.rel[i] == g.rel[i - 1];
    } else {
      assert f in FilesIn(kids[1..]);
      CleanFilesIn(kids[1..], f);
    }
  }

  /** An entry name splits back into the directories it lies under and the
      file's own name. */
  lemma {:induction false} EntryNameSegments(rel: Path, name: string)
    requires IsSegment(name) && forall i :: 0 <= i < |rel| ==> IsSegment(rel[i])
    ensures Segments(ZipPrefix(rel) + name) == rel + [name]
    decreases |rel|
  {
    if rel == [] {
      assert ZipPrefix(rel) + name == [] + name;
      EndsInSegment([], name);
      SplitAtLastSlashUnique([], name);
      SegmentsOfTrimmed([] + name, [], name);
      assert TrimTrailingSlashes([]) == [];
    } else {
      var init, last := rel[..|rel| - 1], rel[|rel| - 1];
      var j := ZipPrefix(init) + last;
      assert ZipPrefix(rel) + name == j + "/" + name;
      assert j[|j| - 1] == last[|last| - 1];
      SplitAtLastSegment(j, name);
      EntryNameSegments(init, last);
      assert init + [last] == rel;
    }
  }

  /** Started with an empty prefix, as zipDir starts it, the walk of a clean
      tree names each entry after the file's path relative to the walked
      directory: the directory's own name and the path above it never
      appear, and no directory gets an entry of its own. */
  lemma WalkEntryNames(inc: Rule, n: Node, dir: Path, e: Entry)
    requires Clean(n) && e in WalkDir(inc, n, dir, "").entries
    ensures exists f :: f in Files(n) && inc(FullPath(dir, f)) && Segments(e.name) == f.rel + [f.name]
  {
    WalkEntriesAreWanted(inc, n, dir, "", e);
    var i :| 0 <= i < |Files(n)| && Wanted(inc, dir, Files(n)[i]) && e == EntryFor("", Files(n)[i]);
    var f := Files(n)[i];
    assert f in Files(n) && inc(FullPath(dir, f));
    CleanFiles(n, f);
    assert e.name == "" + ZipPrefix(f.rel) + f.name == ZipPrefix(f.rel) + f.name;
    EntryNameSegments(f.rel, f.name);
  }

  /** In a clean tree an entry stands for one file only: a file whose entry
      the walk added is a file the rule accepts, whatever prefix the walk
      started with. */
  lemma EntryOnlyIfAccepted(inc: Rule, n: Node, dir: Path, pre: string, f: Found)
    requires Clean(n) && f in Files(n)
    requires EntryFor(pre, f) in WalkDir(inc, n, dir, pre).entries
    ensures inc(FullPath(dir, f))
  {
    WalkEntriesAreWanted(inc, n, dir, pre, EntryFor(pre, f));
    var i :| 0 <= i < |Files(n)| && Wanted(inc, dir, Files(n)[i]) && EntryFor(pre, f) == EntryFor(pre, Files(n)[i]);
    var g := Files(n)[i];
    SameNameSamePath(n, pre, f, g);
    assert FullPath(dir, f) == dir + (f.rel + [f.name]);
    assert FullPath(dir, g) == dir + (g.rel + [g.name]);
  }

  /** Two files of a clean tree whose entries have the same name are at the
      same relative path. */
  lemma SameNameSamePath(n: Node, pre: string, f: Found, g: Found)
    requires Clean(n) && f in Files(n) && g in Files(n)
    requires EntryFor(pre, f).name == EntryFor(pre, g).name
    ensures f.rel + [f.name] == g.rel + [g.name]
  {
    var nf, ng := ZipPrefix(f.rel) + f.name, ZipPrefix(g.rel) + g.name;
    assert EntryFor(pre, f).name == pre + nf;
    assert EntryFor(pre, g).name == pre + ng;
    assert nf == (pre + nf)[|pre|..];
    assert ng == (pre + ng)[|pre|..];
    CleanFiles(n, f);
    CleanFiles(n, g);
    EntryNameSegments(f.rel, f.name);
    EntryNameSegments(g.rel, g.name);
  }

  /** In a healthy, clean tree a file becomes an entry exactly when the
      rule accepts its full path. */
  lemma FileIncludedIff(inc: Rule, n: Node, dir: Path, pre: string, i: nat)
    requires n.Dir? && Healthy(n) && Clean(n) && i < |Files(n)|
    ensures EntryFor(pre, Files(n)[i]) in WalkDir(inc, n, dir, pre).entries <==> inc(FullPath(dir, Files(n)[i]))
  {
    HealthyFileIncluded(inc, n, dir, pre, i);
    if EntryFor(pre, Files(n)[i]) in WalkDir(inc, n, dir, pre).entries {
      EntryOnlyIfAccepted(inc, n, dir, pre, Files(n)[i]);
    }
  }
}
