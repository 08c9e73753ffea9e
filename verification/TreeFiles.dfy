/** What a directory's total means, told from the files themselves instead of by recursion. */
module TreeFiles {
  import opened Sums
  import opened TreeSizes

  /** A file: an entry of a directory. */
  datatype File = File(dir: Path, entry: Entry)

  /** The directory at `p[..k]` is an entry of a readable directory, and neither excluded nor a foreign mount. */
  predicate Enterable(t: Tree, p: Path, k: nat)
    requires 0 < k <= |p|
  {
    var parent := p[..k - 1];
    && p[..k] !in t.excluded && p[..k] !in t.mounts && parent in t.dirs
    && exists e :: e in t.dirs[parent] && e.name == p[k - 1] && e.kind.Directory?
  }

  /** Every directory strictly below `root` on the way to `p`, and `p` itself, can be entered. */
  predicate Reaches(t: Tree, root: Path, p: Path)
  {
    root <= p && forall k :: |root| < k <= |p| ==> Enterable(t, p, k)
  }

  /** The file is regular, not excluded, and in a readable directory that can be reached. */
  predicate Counted(t: Tree, root: Path, f: File)
  {
    && Reaches(t, root, f.dir) && f.dir in t.dirs && f.entry in t.dirs[f.dir]
    && f.entry.kind.Regular? && f.dir + [f.entry.name] !in t.excluded
  }

  /** All files that count below `root`. */
  function Files(t: Tree, root: Path): set<File>
  {
    set p, e | p in t.dirs.Keys && e in t.dirs[p] && Counted(t, root, File(p, e)) :: File(p, e)
  }

  function Sizes(fs: set<File>): map<File, nat>
  {
    map f | f in fs && f.entry.kind.Regular? :: f.entry.kind.size
  }

  lemma IsFile(t: Tree, root: Path, f: File)
    ensures f in Files(t, root) <==> Counted(t, root, f)
  {
  }

  /** A file stands for one path: no two files that count have the same. */
  lemma OnePathEach(t: Tree, root: Path, f: File, g: File)
    requires t.Valid() && f in Files(t, root) && g in Files(t, root)
    requires f.dir + [f.entry.name] == g.dir + [g.entry.name]
    ensures f == g
  {
    var p, q := f.dir + [f.entry.name], g.dir + [g.entry.name];
    assert p[..|p| - 1] == f.dir && q[..|q| - 1] == g.dir;
    assert p[|p| - 1] == f.entry.name && q[|q| - 1] == g.entry.name;
    var i :| 0 <= i < |t.dirs[f.dir]| && t.dirs[f.dir][i] == f.entry;
    var j :| 0 <= j < |t.dirs[f.dir]| && t.dirs[f.dir][j] == g.entry;
  }

  // ------------------------------------------------------------------------------
  // Files by the entry of the directory they come through
  // ------------------------------------------------------------------------------

  /** The entry of `p` through which one gets to the file. */
  function Through(p: Path, f: File): string
    requires p <= f.dir
  {
    if f.dir == p then f.entry.name else f.dir[|p|]
  }

  /** The files below `p` that one gets to through its first `n` entries. */
  function FilesThrough(t: Tree, p: Path, n: nat): set<File>
    requires p in t.dirs && n <= |t.dirs[p]|
  {
    set f | f in Files(t, p) && p <= f.dir && exists j :: 0 <= j < n && t.dirs[p][j].name == Through(p, f)
  }

  /** The files that the entry `e` of `p` brings. */
  function FilesOf(t: Tree, p: Path, e: Entry): set<File>
  {
    if t.Descends(p, e) then Files(t, p + [e.name])
    else if e.kind.Regular? && p + [e.name] !in t.excluded then {File(p, e)}
    else {}
  }

  lemma ReachesThrough(t: Tree, p: Path, name: string, q: Path)
    requires p <= q && p != q && q[|p|] == name
    ensures Reaches(t, p, q) <==> Enterable(t, q, |p| + 1) && Reaches(t, p + [name], q)
  {
    assert p + [name] <= q;
  }

  /** Entries have different names, so what is found under a name is that entry. */
  lemma SameName(t: Tree, p: Path, i: nat, e: Entry)
    requires t.Valid() && p in t.dirs && i < |t.dirs[p]| && e in t.dirs[p] && e.name == t.dirs[p][i].name
    ensures e == t.dirs[p][i]
  {
    var j :| 0 <= j < |t.dirs[p]| && t.dirs[p][j] == e;
  }

  /** The files one gets to through an entry are those it brings. */
  lemma ThroughEntry(t: Tree, p: Path, i: nat, f: File)
    requires t.Valid() && p in t.dirs && i < |t.dirs[p]|
    ensures f in FilesOf(t, p, t.dirs[p][i]) <==>
            f in Files(t, p) && p <= f.dir && Through(p, f) == t.dirs[p][i].name
  {
    var e := t.dirs[p][i];
    IsFile(t, p, f);
    IsFile(t, p + [e.name], f);
    hide Files;
    if p <= f.dir && p != f.dir {
      BelowEntry(t, p, i, f);
    } else if f.dir == p {
      InDirectory(t, p, i, f);
    } else {
      AboveBoth(p, e.name, f.dir);
    }
  }

  lemma AboveBoth(p: Path, name: string, q: Path)
    ensures p + [name] <= q ==> p <= q && p != q
  {
    if p + [name] <= q {
      assert p == q[..|p|];
    }
  }

  lemma BelowEntry(t: Tree, p: Path, i: nat, f: File)
    requires t.Valid() && p in t.dirs && i < |t.dirs[p]| && p <= f.dir && p != f.dir
    ensures f in FilesOf(t, p, t.dirs[p][i]) <==> Counted(t, p, f) && f.dir[|p|] == t.dirs[p][i].name
  {
    var e := t.dirs[p][i];
    var child := p + [e.name];
    IsFile(t, child, f);
    hide Files;
    if f.dir[|p|] == e.name {
      ReachesThrough(t, p, e.name, f.dir);
      assert f.dir[..|p|] == p && f.dir[..|p| + 1] == child;
      EntersThrough(t, p, i);
      assert Enterable(t, f.dir, |p| + 1) <==> t.Descends(p, e);
    } else {
      assert !(child <= f.dir);
    }
  }

  lemma EntersThrough(t: Tree, p: Path, i: nat)
    requires t.Valid() && p in t.dirs && i < |t.dirs[p]|
    ensures var e := t.dirs[p][i];
            t.Descends(p, e) <==>
              && p + [e.name] !in t.excluded && p + [e.name] !in t.mounts
              && exists x :: x in t.dirs[p] && x.name == e.name && x.kind.Directory?
  {
    var e := t.dirs[p][i];
    forall x | x in t.dirs[p] && x.name == e.name
      ensures x == e
    {
      SameName(t, p, i, x);
    }
  }

  lemma InDirectory(t: Tree, p: Path, i: nat, f: File)
    requires t.Valid() && p in t.dirs && i < |t.dirs[p]| && f.dir == p
    ensures f in FilesOf(t, p, t.dirs[p][i]) <==> Counted(t, p, f) && f.entry.name == t.dirs[p][i].name
  {
    var e := t.dirs[p][i];
    IsFile(t, p + [e.name], f);
    assert !(p + [e.name] <= p);
    if f.entry in t.dirs[p] && f.entry.name == e.name {
      SameName(t, p, i, f.entry);
    }
  }

  lemma NextEntry(t: Tree, p: Path, n: nat)
    requires t.Valid() && p in t.dirs && n < |t.dirs[p]|
    ensures FilesThrough(t, p, n + 1) == FilesThrough(t, p, n) + FilesOf(t, p, t.dirs[p][n])
    ensures FilesThrough(t, p, n) !! FilesOf(t, p, t.dirs[p][n])
  {
    hide Files, FilesOf;
    forall f
      ensures f in FilesThrough(t, p, n + 1) <==> f in FilesThrough(t, p, n) || f in FilesOf(t, p, t.dirs[p][n])
      ensures f in FilesThrough(t, p, n) ==> f !in FilesOf(t, p, t.dirs[p][n])
    {
      ThroughEntry(t, p, n, f);
    }
  }

  lemma AllThrough(t: Tree, p: Path)
    requires t.Valid() && p in t.dirs
    ensures FilesThrough(t, p, |t.dirs[p]|) == Files(t, p)
  {
    forall f | f in Files(t, p)
      ensures f in FilesThrough(t, p, |t.dirs[p]|)
    {
      IsFile(t, p, f);
      if f.dir == p {
        var j :| 0 <= j < |t.dirs[p]| && t.dirs[p][j] == f.entry;
      } else {
        assert Enterable(t, f.dir, |p| + 1);
        assert f.dir[..|p|] == p;
        var e :| e in t.dirs[p] && e.name == f.dir[|p|] && e.kind.Directory?;
        var j :| 0 <= j < |t.dirs[p]| && t.dirs[p][j] == e;
      }
    }
  }

  /** Files, none of which is in both sets, add up. */
  lemma AddUp(a: set<File>, b: set<File>)
    requires a !! b
    ensures |a + b| == |a| + |b|
    ensures Total(Sizes(a + b)) == Total(Sizes(a)) + Total(Sizes(b))
  {
    TotalUnion(Sizes(a), Sizes(b));
    assert Sizes(a + b) == Sizes(a) + Sizes(b);
  }

  /** What a set of files adds up to. */
  ghost predicate Measures(total: Totals, fs: set<File>)
  {
    total.files == |fs| && total.bytes == Total(Sizes(fs))
  }

  lemma NothingMeasured()
    ensures Measures(ZERO, {})
  {
    assert Sizes({}) == map[];
  }

  lemma OneFile(f: File)
    requires f.entry.kind.Regular?
    ensures Measures(Totals(f.entry.kind.size, 1), {f})
  {
    TotalRemove(Sizes({f}), f);
    assert Sizes({f}) - {f} == map[];
  }

  lemma MeasuresPlus(a: Totals, b: Totals, fs: set<File>, gs: set<File>)
    requires Measures(a, fs) && Measures(b, gs) && fs !! gs
    ensures Measures(Plus(a, b), fs + gs)
  {
    AddUp(fs, gs);
  }

  /**
   The reference total of a directory is the number and the sum of the sizes of the files that
   count below it: the regular files, not excluded, of the readable directories that can be
   reached without entering anything excluded or mounted from elsewhere.
   */
  lemma {:induction false} SizeMeasuresFiles(t: Tree, root: Path)
    requires t.Valid()
    ensures t.Size(root).files == |Files(t, root)|
    ensures t.Size(root).bytes == Total(Sizes(Files(t, root)))
    decreases t.Level(root), 1, 0
  {
    if root in t.dirs {
      FirstMeasure(t, root, |t.dirs[root]|);
      AllThrough(t, root);
    } else {
      forall f
        ensures f !in Files(t, root)
      {
        IsFile(t, root, f);
        FilesNeedRoot(t, root, f);
      }
      assert Files(t, root) == {};
      NothingMeasured();
    }
  }

  lemma FilesNeedRoot(t: Tree, root: Path, f: File)
    ensures Counted(t, root, f) ==> root in t.dirs
  {
    if Counted(t, root, f) && f.dir != root {
      assert Enterable(t, f.dir, |root| + 1);
      assert f.dir[..|root|] == root;
    }
  }

  lemma AsMeasured(t: Tree, p: Path, e: Entry)
    requires t.Valid() && t.Descends(p, e)
    requires var size := t.Size(p + [e.name]);
             size.files == |Files(t, p + [e.name])| && size.bytes == Total(Sizes(Files(t, p + [e.name])))
    ensures Measures(t.Size(p + [e.name]), FilesOf(t, p, e))
  {
  }

  /** What one entry adds to its directory. */
  function Share(t: Tree, p: Path, e: Entry): Totals
    requires t.Valid()
  {
    if t.Descends(p, e) then t.Size(p + [e.name])
    else if e.kind.Regular? && p + [e.name] !in t.excluded then Totals(e.kind.size, 1)
    else ZERO
  }

  lemma NoneThrough(t: Tree, p: Path)
    requires t.Valid() && p in t.dirs
    ensures Measures(t.SizeOfFirst(p, 0), FilesThrough(t, p, 0))
  {
    hide Files;
    assert FilesThrough(t, p, 0) == {};
    NothingMeasured();
  }

  lemma ShareNext(t: Tree, p: Path, n: nat)
    requires t.Valid() && p in t.dirs && n < |t.dirs[p]|
    ensures t.SizeOfFirst(p, n + 1) == Plus(t.SizeOfFirst(p, n), Share(t, p, t.dirs[p][n]))
  {
  }

  lemma {:induction false} ShareMeasures(t: Tree, p: Path, e: Entry)
    requires t.Valid() && p in t.dirs
    ensures Measures(Share(t, p, e), FilesOf(t, p, e))
    decreases t.Level(p), 0, 0
  {
    hide Files, Measures;
    if t.Descends(p, e) {
      SizeMeasuresFiles(t, p + [e.name]);
      AsMeasured(t, p, e);
    } else if e.kind.Regular? && p + [e.name] !in t.excluded {
      OneFile(File(p, e));
    } else {
      NothingMeasured();
    }
  }

  lemma {:induction false} FirstMeasure(t: Tree, p: Path, n: nat)
    requires t.Valid() && p in t.dirs && n <= |t.dirs[p]|
    ensures Measures(t.SizeOfFirst(p, n), FilesThrough(t, p, n))
    decreases t.Level(p), 0, n
  {
    hide Files, FilesThrough, FilesOf, Share, Measures, Total;
    if n == 0 {
      NoneThrough(t, p);
    } else {
      var e := t.dirs[p][n - 1];
      FirstMeasure(t, p, n - 1);
      ShareMeasures(t, p, e);
      NextEntry(t, p, n - 1);
      ShareNext(t, p, n - 1);
      MeasuresPlus(t.SizeOfFirst(p, n - 1), Share(t, p, e), FilesThrough(t, p, n - 1), FilesOf(t, p, e));
    }
  }

  /** The directories a complete walk visits are those that can be reached. */
  lemma {:induction false} VisitedAreReached(t: Tree, root: Path, p: Path)
    requires root <= p
    ensures t.Visited(root, p) <==> Reaches(t, root, p)
    decreases |p|
  {
    if p != root {
      var parent := p[..|p| - 1];
      assert root <= parent;
      VisitedAreReached(t, root, parent);
      forall k | 0 < k <= |parent|
        ensures Enterable(t, parent, k) <==> Enterable(t, p, k)
      {
        assert parent[..k] == p[..k] && parent[..k - 1] == p[..k - 1];
      }
      assert p[..|p|] == p == parent + [p[|p| - 1]];
      assert Reaches(t, root, p) <==> Reaches(t, root, parent) && Enterable(t, p, |p|);
    }
  }
}
