/**
 The directory-size gatherer: a recursive walk that reuses cached totals, stores only some
 of them, and may be cut off anywhere, on a file system that does not change meanwhile.
 */
module TreeSizes {
  import opened Collections

  /** An absolute path, cleaned, as its components. */
  type Path = seq<string>

  datatype Kind = Regular(size: nat) | Symlink | Special | Directory

  datatype Entry = Entry(name: string, kind: Kind)

  datatype Totals = Totals(bytes: nat, files: nat)

  function Plus(a: Totals, b: Totals): Totals
  {
    Totals(a.bytes + b.bytes, a.files + b.files)
  }

  const ZERO := Totals(0, 0)

  /**
   The readable directories with what reading them returns, the paths the size walk leaves
   out, and the foreign mounts it must not descend into. A directory that cannot be opened
   is a directory entry whose path is not in `dirs`.
   */
  datatype Tree = Tree(dirs: map<Path, seq<Entry>>, height: nat, excluded: set<Path>, mounts: set<Path>)
  {
    predicate Valid()
    {
      && (forall p :: p in dirs ==> |p| <= height)
      && (forall p, i, j :: p in dirs && 0 <= i < j < |dirs[p]| ==> dirs[p][i].name != dirs[p][j].name)
    }

    function Level(p: Path): nat
    {
      if |p| > height then 0 else height + 1 - |p|
    }

    /** The walk descends from `dir` into its entry `e`. */
    predicate Descends(dir: Path, e: Entry)
    {
      e.kind.Directory? && dir + [e.name] !in excluded && dir + [e.name] !in mounts
    }

    /** The reference: what everything below `p` adds up to, computed without any cache. */
    function Size(p: Path): Totals
      requires Valid()
      decreases Level(p), 1, 0
    {
      if p in dirs then SizeOfFirst(p, |dirs[p]|) else ZERO
    }

    function SizeOfFirst(p: Path, n: nat): Totals
      requires Valid() && p in dirs && n <= |dirs[p]|
      decreases Level(p), 0, n
    {
      if n == 0 then ZERO
      else
        var e := dirs[p][n - 1];
        Plus(SizeOfFirst(p, n - 1),
             if Descends(p, e) then Size(p + [e.name])
             else if e.kind.Regular? && p + [e.name] !in excluded then Totals(e.kind.size, 1)
             else ZERO)
    }

    /** The directories a complete walk from `root` visits. */
    predicate Visited(root: Path, p: Path)
      requires root <= p
      decreases |p|
    {
      p == root ||
      (var parent := p[..|p| - 1];
       && root <= parent && Visited(root, parent) && parent in dirs
       && exists e :: e in dirs[parent] && e.name == p[|p| - 1] && Descends(parent, e))
    }
  }

  // ------------------------------------------------------------------------------
  // Display depth
  // ------------------------------------------------------------------------------

  /** The depth a walk that enters `base` at depth `d` has when it reaches `p`. */
  function DepthAt(anchors: set<Path>, base: Path, d: nat, p: Path): nat
    requires base <= p
    decreases |p|
  {
    if p in anchors then 0
    else if p == base then d
    else 1 + DepthAt(anchors, base, d, p[..|p| - 1])
  }

  /** `a` encloses `p` and a pushed tree can be rooted there. */
  predicate Encloses(anchors: set<Path>, root: Path, a: Path, p: Path)
  {
    root <= a <= p && (a == root || a in anchors)
  }

  /** The walk's depth is the distance to the nearest enclosing anchor, or to the walk root. */
  lemma {:induction false} DepthIsAnchorDistance(anchors: set<Path>, root: Path, p: Path)
    requires root <= p
    ensures exists a :: Encloses(anchors, root, a, p) && |p| - |a| == DepthAt(anchors, root, 0, p)
    ensures forall a :: Encloses(anchors, root, a, p) ==> DepthAt(anchors, root, 0, p) <= |p| - |a|
    decreases |p|
  {
    if p in anchors || p == root {
      assert Encloses(anchors, root, p, p);
    } else {
      var parent := p[..|p| - 1];
      DepthIsAnchorDistance(anchors, root, parent);
      var a :| Encloses(anchors, root, a, parent) && |parent| - |a| == DepthAt(anchors, root, 0, parent);
      assert Encloses(anchors, root, a, p);
      forall b | Encloses(anchors, root, b, p)
        ensures DepthAt(anchors, root, 0, p) <= |p| - |b|
      {
        assert b != p;
        assert Encloses(anchors, root, b, parent);
      }
    }
  }

  lemma {:induction false} DepthThroughChild(anchors: set<Path>, base: Path, d: nat, name: string, p: Path)
    requires base + [name] <= p
    ensures DepthAt(anchors, base, d, p)
         == DepthAt(anchors, base + [name], 1 + (if base in anchors then 0 else d), p)
    decreases |p|
  {
    if p == base + [name] {
      assert p[..|p| - 1] == base;
    } else if p !in anchors {
      DepthThroughChild(anchors, base, d, name, p[..|p| - 1]);
    }
  }

  lemma {:induction false} VisitedThroughChild(t: Tree, base: Path, p: Path)
    requires base <= p && p != base && t.Visited(base, p)
    ensures var child := base + [p[|base|]];
            && child <= p && t.Visited(child, p)
            && base in t.dirs && exists e :: e in t.dirs[base] && e.name == p[|base|] && t.Descends(base, e)
    decreases |p|
  {
    var parent, child := p[..|p| - 1], base + [p[|base|]];
    if parent == base {
      assert p == child;
    } else {
      VisitedThroughChild(t, base, parent);
      assert child <= parent;
    }
  }

  // ------------------------------------------------------------------------------
  // The gatherer
  // ------------------------------------------------------------------------------

  datatype DirSize = DirSize(total: Totals, computedAt: int, lastWalkMS: int)

  datatype Config = Config(smallRefresh: int, largeRefresh: int, largeThreshold: int, slowWalk: int,
                           keepDepth: int, keepMinFiles: int, maxEntries: int, stepSleep: int, stepEvery: int)

  function Cadence(cfg: Config, e: DirSize): int
  {
    if e.total.files > cfg.largeThreshold || e.lastWalkMS > cfg.slowWalk then cfg.largeRefresh else cfg.smallRefresh
  }

  predicate Due(cfg: Config, e: DirSize, now: int)
  {
    now - e.computedAt >= Cadence(cfg, e)
  }

  /** The entry has reached the age at which it is computed anew: the large one for a big or slow directory. */
  predicate OutOfDate(cfg: Config, e: DirSize, now: int)
  {
    var big := e.total.files > cfg.largeThreshold || e.lastWalkMS > cfg.slowWalk;
    && (big ==> now >= e.computedAt + cfg.largeRefresh)
    && (!big ==> now >= e.computedAt + cfg.smallRefresh)
  }

  lemma DueMeans(cfg: Config, e: DirSize, now: int)
    ensures Due(cfg, e, now) <==> OutOfDate(cfg, e, now)
  {
  }

  lemma OutOfDateStays(cfg: Config, e: DirSize)
    ensures forall a, b :: a <= b && OutOfDate(cfg, e, a) ==> OutOfDate(cfg, e, b)
  {
  }

  predicate WorthCaching(cfg: Config, depth: int, e: DirSize)
  {
    depth <= cfg.keepDepth || e.total.files >= cfg.keepMinFiles || e.lastWalkMS > cfg.slowWalk
  }

  datatype WalkResult = Done(total: Totals) | Cut

  /**
   What a walk that computed `total` anew leaves for its directory: an entry of its own time when
   the directory is unreadable, shallow or has enough files, none unless it is one of these or was slow.
   */
  predicate KeptRight(t: Tree, cfg: Config, dir: Path, depth: nat, total: Totals, t0: int, cache: map<Path, DirSize>)
  {
    && (dir in cache ==> cache[dir].total == total && cache[dir].computedAt >= t0)
    && (dir !in t.dirs || depth <= cfg.keepDepth || total.files >= cfg.keepMinFiles ==> dir in cache)
    && (dir in cache ==>
          || dir !in t.dirs || depth <= cfg.keepDepth || total.files >= cfg.keepMinFiles
          || cache[dir].lastWalkMS > cfg.slowWalk)
  }

  /** Every entry is its directory's reference total. */
  ghost predicate Truthful(t: Tree, cache: map<Path, DirSize>)
    requires t.Valid()
  {
    forall p :: p in cache ==> cache[p].total == t.Size(p)
  }

  /** Nothing at or below `dir` differs between the caches, unless told otherwise. */
  ghost predicate SameOutside(a: map<Path, DirSize>, b: map<Path, DirSize>, dir: Path)
  {
    forall p :: !(dir <= p) ==> (p in a <==> p in b) && (p in a ==> a[p] == b[p])
  }

  ghost predicate AllDue(cfg: Config, cache: map<Path, DirSize>, dir: Path, now: int)
  {
    forall p :: p in cache && dir <= p ==> Due(cfg, cache[p], now)
  }

  /** Every visited directory below `dir` that a picker can show has an entry. */
  ghost predicate Covered(t: Tree, cfg: Config, anchors: set<Path>, cache: map<Path, DirSize>, dir: Path, depth: nat)
  {
    forall p :: dir <= p && t.Visited(dir, p) && DepthAt(anchors, dir, depth, p) <= cfg.keepDepth ==> p in cache
  }

  /** Apart from what lies below the children called `names`, the caches agree. */
  ghost predicate SameBut(a: map<Path, DirSize>, b: map<Path, DirSize>, dir: Path, names: set<string>)
  {
    forall p :: !(dir <= p && p != dir && p[|dir|] in names) ==> (p in a <==> p in b) && (p in a ==> a[p] == b[p])
  }

  function NamesOf(entries: seq<Entry>): set<string>
  {
    set e | e in entries :: e.name
  }

  ghost predicate ChildrenCovered(t: Tree, cfg: Config, anchors: set<Path>, cache: map<Path, DirSize>,
                                  dir: Path, depth: nat, n: nat)
    requires dir in t.dirs && n <= |t.dirs[dir]|
  {
    forall j :: 0 <= j < n && t.Descends(dir, t.dirs[dir][j]) ==>
                  Covered(t, cfg, anchors, cache, dir + [t.dirs[dir][j].name], depth + 1)
  }

  lemma ChildStep(a: map<Path, DirSize>, b: map<Path, DirSize>, c: map<Path, DirSize>,
                  dir: Path, names: set<string>, name: string)
    requires SameBut(a, b, dir, names) && SameOutside(b, c, dir + [name])
    ensures SameBut(a, c, dir, names + {name})
  {
    forall p | !(dir <= p && p != dir && p[|dir|] in names + {name})
      ensures (p in a <==> p in c) && (p in a ==> a[p] == c[p])
    {
      assert !(dir + [name] <= p);
    }
  }

  lemma ChildStillDue(cfg: Config, a: map<Path, DirSize>, b: map<Path, DirSize>, dir: Path, names: set<string>,
                      name: string, t0: int, now: int)
    requires SameBut(a, b, dir, names) && name !in names && AllDue(cfg, a, dir, t0) && t0 <= now
    ensures AllDue(cfg, b, dir + [name], now)
  {
    forall p | p in b && dir + [name] <= p
      ensures Due(cfg, b[p], now)
    {
      assert p[|dir|] == name && dir <= p;
      assert p in a && a[p] == b[p];
    }
  }

  /** A sibling's walk does not uncover what the children before it left. */
  lemma StillCovered(t: Tree, cfg: Config, anchors: set<Path>, b: map<Path, DirSize>, c: map<Path, DirSize>,
                     dir: Path, depth: nat, n: nat)
    requires t.Valid() && dir in t.dirs && n < |t.dirs[dir]|
    requires ChildrenCovered(t, cfg, anchors, b, dir, depth, n)
    requires SameOutside(b, c, dir + [t.dirs[dir][n].name])
    requires t.Descends(dir, t.dirs[dir][n]) ==> Covered(t, cfg, anchors, c, dir + [t.dirs[dir][n].name], depth + 1)
    ensures ChildrenCovered(t, cfg, anchors, c, dir, depth, n + 1)
  {
    forall j | 0 <= j < n && t.Descends(dir, t.dirs[dir][j])
      ensures Covered(t, cfg, anchors, c, dir + [t.dirs[dir][j].name], depth + 1)
    {
      var child := dir + [t.dirs[dir][j].name];
      assert t.dirs[dir][j].name != t.dirs[dir][n].name;
      forall p | child <= p && t.Visited(child, p) && DepthAt(anchors, child, depth + 1, p) <= cfg.keepDepth
        ensures p in c
      {
        hide *;
        assert p in b by { CoveredAt(t, cfg, anchors, b, child, depth + 1, p, dir, j, n); }
        NotUnderSibling(dir, t.dirs[dir][j].name, t.dirs[dir][n].name, p);
        SameAt(b, c, dir + [t.dirs[dir][n].name], p);
      }
    }
  }

  lemma CoveredAt(t: Tree, cfg: Config, anchors: set<Path>, b: map<Path, DirSize>, child: Path, d: nat, p: Path,
                  dir: Path, j: nat, n: nat)
    requires dir in t.dirs && j < n <= |t.dirs[dir]| && d > 0 && ChildrenCovered(t, cfg, anchors, b, dir, d - 1, n)
    requires t.Descends(dir, t.dirs[dir][j]) && child == dir + [t.dirs[dir][j].name]
    requires child <= p && t.Visited(child, p) && DepthAt(anchors, child, d, p) <= cfg.keepDepth
    ensures p in b
  {
  }

  lemma NotUnderSibling(dir: Path, name: string, other: string, p: Path)
    requires dir + [name] <= p && name != other
    ensures !(dir + [other] <= p)
  {
    assert p[|dir|] == name;
  }

  lemma SameAt(b: map<Path, DirSize>, c: map<Path, DirSize>, dir: Path, p: Path)
    requires SameOutside(b, c, dir) && !(dir <= p)
    ensures p in b <==> p in c
  {
  }

  /** The children's coverage and the directory's own entry cover the directory. */
  lemma CoverageUp(t: Tree, cfg: Config, anchors: set<Path>, before: map<Path, DirSize>, after: map<Path, DirSize>,
                   dir: Path, depth: nat)
    requires t.Valid() && dir in t.dirs
    requires var d := if dir in anchors then 0 else depth;
             && ChildrenCovered(t, cfg, anchors, before, dir, d, |t.dirs[dir]|)
             && (d <= cfg.keepDepth ==> dir in after)
    requires forall p :: p in before && p != dir ==> p in after
    ensures Covered(t, cfg, anchors, after, dir, depth)
  {
    var d := if dir in anchors then 0 else depth;
    forall p | dir <= p && t.Visited(dir, p) && DepthAt(anchors, dir, depth, p) <= cfg.keepDepth
      ensures p in after
    {
      if p != dir {
        VisitedThroughChild(t, dir, p);
        var j :| 0 <= j < |t.dirs[dir]| && t.dirs[dir][j].name == p[|dir|] && t.Descends(dir, t.dirs[dir][j]);
        DepthThroughChild(anchors, dir, depth, p[|dir|], p);
        assert Covered(t, cfg, anchors, before, dir + [p[|dir|]], d + 1);
      }
    }
  }

  /** None of the looks from the a-th to before the b-th finds the context ended. */
  ghost predicate Uncut(ctx: nat -> bool, a: nat, b: nat)
  {
    forall i: nat :: a <= i < b ==> !ctx(i)
  }

  lemma OneLook(ctx: nat -> bool, a: nat)
    ensures Uncut(ctx, a, a + 1) <==> !ctx(a)
  {
  }

  lemma MoreLooks(ctx: nat -> bool, a: nat, b: nat, c: nat)
    requires a <= b <= c
    ensures Uncut(ctx, a, c) <==> Uncut(ctx, a, b) && Uncut(ctx, b, c)
  {
  }

  predicate UnderAny(p: Path, prefixes: seq<Path>)
  {
    exists q :: q in prefixes && q <= p
  }

  /** Distinct paths of the cache, those with the most files first. */
  ghost predicate MostFilesFirst(cache: map<Path, DirSize>, all: seq<Path>)
  {
    && (forall p :: p in all ==> p in cache)
    && (forall i, j :: 0 <= i < j < |all| ==> all[i] != all[j])
    && (forall i, j :: 0 <= i < j < |all| ==> cache[all[i]].total.files >= cache[all[j]].total.files)
  }

  method ByFilesDescending(cache: map<Path, DirSize>) returns (all: seq<Path>)
    ensures MostFilesFirst(cache, all) && forall p :: p in all <==> p in cache
  {
    all := [];
    var todo := cache.Keys;
    while todo != {}
      invariant todo <= cache.Keys && MostFilesFirst(cache, all)
      invariant forall p :: p in all <==> p in cache.Keys - todo
      invariant forall p, q :: p in all && q in todo ==> cache[p].total.files >= cache[q].total.files
      decreases todo
    {
      ghost var largest := Largest(cache, todo);
      var p :| p in todo && forall q :: q in todo ==> cache[q].total.files <= cache[p].total.files;
      all := all + [p];
      todo := todo - {p};
    }
  }

  lemma {:induction false} Largest(cache: map<Path, DirSize>, keys: set<Path>) returns (p: Path)
    requires keys != {} && keys <= cache.Keys
    ensures p in keys && forall q :: q in keys ==> cache[q].total.files <= cache[p].total.files
    decreases keys
  {
    p :| p in keys;
    if keys != {p} {
      var r := Largest(cache, keys - {p});
      if cache[r].total.files > cache[p].total.files {
        p := r;
      }
    }
  }

  lemma {:induction false} Count(all: seq<Path>, keys: set<Path>)
    requires forall p :: p in all <==> p in keys
    requires forall i, j :: 0 <= i < j < |all| ==> all[i] != all[j]
    ensures |all| == |keys|
  {
    if all == [] {
      assert keys == {};
    } else {
      var last := all[|all| - 1];
      assert all == all[..|all| - 1] + [last];
      Count(all[..|all| - 1], keys - {last});
    }
  }

  lemma KeptAndGone(full: map<Path, DirSize>, all: seq<Path>, max: nat)
    requires MostFilesFirst(full, all) && (forall p :: p in all <==> p in full) && max <= |all|
    ensures forall p :: p in full - (set q | q in all[max..]) <==> p in all[..max]
    ensures forall p :: p in full && p !in all[..max] <==> p in all[max..]
  {
    assert all == all[..max] + all[max..];
    forall p | p in all[..max]
      ensures p !in all[max..]
    {
      var i :| 0 <= i < max && all[i] == p;
    }
  }

  lemma LargerStay(full: map<Path, DirSize>, all: seq<Path>, max: nat, gone: Path, kept: Path)
    requires MostFilesFirst(full, all) && max <= |all|
    requires gone in all[max..] && kept in all[..max]
    ensures gone in full && kept in full && full[gone].total.files <= full[kept].total.files
  {
    var g :| max <= g < |all| && all[g] == gone;
    var k :| 0 <= k < max && all[k] == kept;
  }

  lemma CountListed(full: map<Path, DirSize>, all: seq<Path>)
    requires MostFilesFirst(full, all) && forall p :: p in all <==> p in full
    ensures |all| == |full|
  {
    Count(all, full.Keys);
  }

  lemma CountKept(full: map<Path, DirSize>, all: seq<Path>, max: nat, cache: map<Path, DirSize>)
    requires MostFilesFirst(full, all) && max <= |all|
    requires forall p :: p in cache <==> p in all[..max]
    ensures |cache| == max
  {
    Count(all[..max], cache.Keys);
  }

  /** Cutting the list off after `max` paths keeps `max` entries, each with no fewer files than any that goes. */
  lemma CapKeepsLargest(full: map<Path, DirSize>, all: seq<Path>, max: nat, cache: map<Path, DirSize>)
    requires MostFilesFirst(full, all) && forall p :: p in all <==> p in full
    requires max <= |all| && cache == full - set p | p in all[max..]
    ensures IsCut(full, max, cache)
  {
    hide MostFilesFirst;
    KeptAndGone(full, all, max);
    CountKept(full, all, max, cache);
    forall gone, kept | gone in full && gone !in cache && kept in cache
      ensures full[gone].total.files <= cache[kept].total.files
    {
      LargerStay(full, all, max, gone, kept);
    }
  }

  method DeleteAll(m: map<Path, DirSize>, keys: seq<Path>) returns (r: map<Path, DirSize>)
    ensures r == m - set p | p in keys
  {
    r := m;
    for i := 0 to |keys|
      invariant r == m - set p | p in keys[..i]
    {
      assert keys[..i + 1] == keys[..i] + [keys[i]];
      r := r - {keys[i]};
    }
    assert keys[..|keys|] == keys;
  }

  class SizeGatherer {
    const tree: Tree
    const cfg: Config
    var cache: map<Path, DirSize>
    var anchors: set<Path>
    var clock: int
    var stepN: nat
    /** How often the walk in progress has looked at its context. */
    var checks: nat

    ghost predicate Valid()
      reads this
    {
      tree.Valid() && Truthful(tree, cache)
    }

    constructor (tree: Tree, cfg: Config, now: int)
      requires tree.Valid()
      ensures Valid() && this.tree == tree && this.cfg == cfg && cache == map[]
    {
      this.tree, this.cfg := tree, cfg;
      cache, anchors, clock, stepN, checks := map[], {}, now, 0, 0;
    }

    /** Time passes between any two steps. */
    method Now() returns (t: int)
      modifies this`clock
      ensures t == clock >= old(clock)
    {
      var passed: int := *;
      if passed > 0 {
        clock := clock + passed;
      }
      t := clock;
    }

    /** Looks at the context: `ctx(i)` says what the i-th look finds. */
    method Cancelled(ctx: nat -> bool) returns (c: bool)
      modifies this`checks
      ensures checks == old(checks) + 1 && c == ctx(old(checks))
    {
      c := ctx(checks);
      checks := checks + 1;
    }

    method Put(p: Path, e: DirSize)
      requires Valid() && e.total == tree.Size(p)
      modifies this`cache
      ensures Valid() && cache == old(cache)[p := e]
    {
      cache := cache[p := e];
    }

    method Drop(p: Path)
      requires Valid()
      modifies this`cache
      ensures Valid() && cache == old(cache) - {p}
    {
      cache := cache - {p};
    }

    /**
     The recursive total of `dir`. Whatever is reused, stored or dropped on the way, and
     wherever the walk is cut off, a total that is returned is the reference total and so is
     every entry left behind. It is cut off exactly when one of its looks at the context finds
     it ended. A complete walk that found every entry due leaves an entry for
     every directory a picker can show.
     */
    method Walk(dir: Path, depth0: nat, ctx: nat -> bool) returns (r: WalkResult)
      requires Valid()
      modifies this`cache, this`clock, this`stepN, this`checks
      ensures Valid() && clock >= old(clock)
      ensures SameOutside(old(cache), cache, dir)
      ensures checks > old(checks) && (r.Done? <==> Uncut(ctx, old(checks), checks))
      ensures r.Done? ==> r.total == tree.Size(dir)
      ensures r.Done? && AllDue(cfg, old(cache), dir, old(clock)) ==>
                Covered(tree, cfg, anchors, cache, dir, depth0)
      // which entries are reused, and which are left behind
      ensures dir in old(cache) && !OutOfDate(cfg, old(cache)[dir], clock) ==>
                cache == old(cache) && (r.Done? ==> r.total == old(cache)[dir].total)
      ensures r.Done? && (dir in old(cache) ==> OutOfDate(cfg, old(cache)[dir], old(clock))) ==>
                KeptRight(tree, cfg, dir, if dir in anchors then 0 else depth0, r.total, old(clock), cache)
      decreases tree.Level(dir), 2
    {
      hide Covered, ChildrenCovered, AllDue, SameOutside, Due, OutOfDate, Uncut;
      OnlyBelow(cache, cache, dir);
      var cancelled := Cancelled(ctx);
      OneLook(ctx, old(checks));
      ghost var looked := checks;
      if cancelled {
        return Cut;
      }
      var depth := if dir in anchors then 0 else depth0;
      var now := Now();
      if dir in cache {
        DueMeans(cfg, cache[dir], now);
        OutOfDateStays(cfg, cache[dir]);
      }
      if dir in cache && !Due(cfg, cache[dir], now) {
        FreshIsNotDue(cfg, cache, dir, old(clock), now);
        return Done(cache[dir].total);
      }
      var elapsed: int := *;
      if dir !in tree.dirs {
        OnlyBelow(cache, cache[dir := DirSize(ZERO, now, elapsed)], dir);
        Put(dir, DirSize(ZERO, now, elapsed));
        UnreadableCovered(tree, cfg, anchors, cache, dir, depth0);
        return Done(ZERO);
      }
      DueLater(cfg, cache, dir, old(clock), clock);
      var ok, total := WalkEntries(dir, depth, ctx);
      MoreLooks(ctx, old(checks), looked, checks);
      looked := checks;
      if !ok {
        return Cut;
      }
      var paused := Throttle(ctx);
      MoreLooks(ctx, old(checks), looked, checks);
      if !paused {
        return Cut;
      }
      ghost var before := cache;
      var e := DirSize(total, now, elapsed);
      OnlyBelow(before, before[dir := e], dir);
      OnlyBelow(before, before - {dir}, dir);
      if WorthCaching(cfg, depth, e) {
        Put(dir, e);
      } else {
        Drop(dir);
      }
      SameTwiceOutside(old(cache), before, cache, dir);
      if AllDue(cfg, old(cache), dir, old(clock)) {
        CoverageUp(tree, cfg, anchors, before, cache, dir, depth0);
      }
      return Done(total);
    }

    /** Pauses every `stepEvery` directories; false when the context ended first. */
    method Throttle(ctx: nat -> bool) returns (ok: bool)
      modifies this`stepN, this`checks
      ensures checks > old(checks) && (ok <==> Uncut(ctx, old(checks), checks))
      ensures var pauses := cfg.stepSleep > 0 && !ctx(old(checks)) && old(stepN) + 1 >= cfg.stepEvery;
              && checks == old(checks) + (if pauses then 2 else 1)
              && stepN == if pauses then 0 else if cfg.stepSleep > 0 && !ctx(old(checks)) then old(stepN) + 1 else old(stepN)
    {
      var cancelled := Cancelled(ctx);
      if cancelled {
        return false;
      }
      if cfg.stepSleep > 0 {
        stepN := stepN + 1;
        var every := if cfg.stepEvery < 1 then 1 else cfg.stepEvery;
        if stepN >= every {
          stepN := 0;
          cancelled := Cancelled(ctx);
          return !cancelled;
        }
      }
      return true;
    }

    /** Adds up the entries of a readable directory. */
    method WalkEntries(dir: Path, depth: nat, ctx: nat -> bool) returns (ok: bool, total: Totals)
      requires Valid() && dir in tree.dirs
      modifies this`cache, this`clock, this`stepN, this`checks
      ensures Valid() && clock >= old(clock)
      ensures SameOutside(old(cache), cache, dir)
      ensures checks >= old(checks) && (ok <==> Uncut(ctx, old(checks), checks))
      ensures ok ==> total == tree.Size(dir)
      ensures ok && AllDue(cfg, old(cache), dir, old(clock)) ==>
                ChildrenCovered(tree, cfg, anchors, cache, dir, depth, |tree.dirs[dir]|)
      decreases tree.Level(dir), 1
    {
      hide Covered, ChildrenCovered, SameBut, SameOutside, AllDue, NamesOf, Due;
      var entries := tree.dirs[dir];
      total := ZERO;
      var i := 0;
      NothingChanged(cache, dir);
      NoChildren(tree, cfg, anchors, cache, dir, depth);
      ghost var due := AllDue(cfg, cache, dir, clock);
      while i < |entries|
        invariant 0 <= i <= |entries|
        invariant Valid() && clock >= old(clock)
        invariant checks >= old(checks) && Uncut(ctx, old(checks), checks)
        invariant SameBut(old(cache), cache, dir, NamesOf(entries[..i]))
        invariant total == tree.SizeOfFirst(dir, i)
        invariant due ==> ChildrenCovered(tree, cfg, anchors, cache, dir, depth, i)
      {
        ghost var was, name, names := cache, entries[i].name, NamesOf(entries[..i]);
        NextName(tree, dir, i);
        if due {
          ChildStillDue(cfg, old(cache), cache, dir, names, name, old(clock), clock);
        }
        ok, total := WalkEntry(dir, i, depth, total, ctx);
        ChildStep(old(cache), was, cache, dir, names, name);
        if !ok {
          SameFromBut(old(cache), cache, dir, names + {name});
          return;
        }
        if due {
          StillCovered(tree, cfg, anchors, was, cache, dir, depth, i);
        }
        i := i + 1;
      }
      SameFromBut(old(cache), cache, dir, NamesOf(entries[..i]));
      ok := true;
    }

    /** Drops the entries at or below the given prefixes and says how many went. */
    method Prune(excludes: seq<Path>) returns (n: nat)
      requires Valid()
      modifies this`cache
      ensures Valid()
      ensures cache == map p | p in old(cache) && !UnderAny(p, excludes) :: old(cache)[p]
      ensures n == |old(cache)| - |cache|
    {
      if |excludes| == 0 {
        return 0;
      }
      n := 0;
      var todo := cache.Keys;
      while todo != {}
        invariant todo <= old(cache).Keys && Valid()
        invariant cache == map p | p in old(cache) && (p in todo || !UnderAny(p, excludes)) :: old(cache)[p]
        invariant n + |cache| == |old(cache)|
        decreases todo
      {
        var p :| p in todo;
        if UnderAny(p, excludes) {
          assert (cache - {p}).Keys == cache.Keys - {p};
          cache := cache - {p};
          n := n + 1;
        }
        todo := todo - {p};
      }
    }

    /** Keeps the entries with the most files when there are too many, and says how many were dropped. */
    method EnforceCap(max: int) returns (dropped: nat)
      requires Valid()
      modifies this`cache
      ensures Valid()
      ensures KeptOf(old(cache), max, cache) && dropped == |old(cache)| - |cache|
    {
      if max <= 0 || |cache| <= max {
        return 0;
      }
      hide MostFilesFirst;
      var all := ByFilesDescending(cache);
      CountListed(cache, all);
      cache := DeleteAll(cache, all[max..]);
      CapKeepsLargest(old(cache), all, max, cache);
      dropped := |all| - max;
      hide IsCut;
      CutSize(old(cache), max, cache);
    }

    /** Enforces the entry cap; writing the file is left out. */
    method Persist() returns (dropped: nat)
      requires Valid()
      modifies this`cache
      ensures Valid()
      ensures KeptOf(old(cache), cfg.maxEntries, cache) && dropped == |old(cache)| - |cache|
      ensures cfg.maxEntries > 0 ==> |cache| <= cfg.maxEntries
    {
      dropped := EnforceCap(cfg.maxEntries);
    }

    /** The paths a tree push can be rooted at. */
    method RebuildAnchors(roots: seq<Path>, repoPaths: seq<Path>)
      modifies this`anchors
      ensures anchors == set p | p in roots + repoPaths
    {
      anchors := {};
      for i := 0 to |roots + repoPaths|
        invariant anchors == set p | p in (roots + repoPaths)[..i]
      {
        assert (roots + repoPaths)[..i + 1] == (roots + repoPaths)[..i] + [(roots + repoPaths)[i]];
        anchors := anchors + {(roots + repoPaths)[i]};
      }
      assert (roots + repoPaths)[..|roots + repoPaths|] == roots + repoPaths;
    }

    /**
     One pass over the due roots. Shutdown may be noticed before a root (`stops`) or after its
     walk (`ends`), and each walk has a context of its own that may end anywhere. The pass walks
     the due roots whose turn comes; those not cut off, whose entries were all due, are covered
     for the pickers before the cap is enforced, and after it if the cap spares what is shown.
     */
    method RunPass(roots: seq<Path>, repoPaths: seq<Path>, stops: nat -> bool, ends: nat -> bool, ctx: nat -> nat -> bool)
      returns (walked: nat, stopped: bool, now: int, ghost complete: set<nat>, ghost found: map<Path, DirSize>)
      requires Valid()
      modifies this
      ensures Valid() && anchors == set p | p in roots + repoPaths
      ensures walked == 0 ==> cache == old(cache)
      ensures walked > 0 && !stopped && cfg.maxEntries > 0 ==> |cache| <= cfg.maxEntries
      ensures stopped ==> cache == found && exists j: nat :: j < |roots| && stops(j)
      ensures !stopped ==> KeptOf(found, cfg.maxEntries, cache) || (walked == 0 && cache == found)
      // which roots are walked to their end, and what they are good for
      ensures now >= old(clock) && forall j: nat :: j in complete ==> j < |roots|
      ensures Apart(roots) ==>
                && TurnsUpTo(cfg, old(cache), roots, now, stops, ends, ctx, |roots|, complete)
                && PickersServed(tree, cfg, anchors, old(cache), roots, old(clock), found, cache, complete)
    {
      hide Due, IsCut, KeptOf, Truthful, Walked, InTurn, TurnsUpTo, PickersServed, GoesOn, Apart;
      now := Now();
      ghost var cache0, t0 := cache, old(clock);
      RebuildAnchors(roots, repoPaths);
      walked, stopped, complete := 0, false, {};
      NoneWalked(tree, cfg, anchors, cache0, roots, t0, now, stops, ends, ctx);
      var i := 0;
      while i < |roots|
        invariant 0 <= i <= |roots|
        invariant Valid() && t0 <= now <= clock && anchors == set p | p in roots + repoPaths
        invariant walked == 0 ==> cache == cache0
        invariant forall j: nat :: j in complete ==> j < i
        invariant Apart(roots) ==>
                    && Walked(tree, cfg, anchors, cache0, cache, roots, i, t0, complete)
                    && InTurn(cfg, cache0, roots, now, stops, ends, ctx, i, complete)
      {
        if stops(i) {
          stopped := true;
          found := cache;
          if Apart(roots) {
            StoppedHere(cfg, cache0, roots, now, stops, ends, ctx, i, complete);
            CoverageKept(tree, cfg, anchors, cache0, found, cache, roots, t0, complete, i);
          }
          return;
        }
        if roots[i] in cache && !Due(cfg, cache[roots[i]], now) {
          if Apart(roots) {
            NotDue(tree, cfg, anchors, cache0, cache, roots, i, t0, complete, now, stops, ends, ctx);
          }
          i := i + 1;
          continue;
        }
        complete := WalkRoot(roots, i, now, stops, ends, ctx, cache0, t0, complete);
        walked := walked + 1;
        if ends(i) {
          found := cache;
          var dropped := Persist();
          if Apart(roots) {
            EndedHere(cfg, cache0, roots, now, stops, ends, ctx, i, complete);
            CoverageKept(tree, cfg, anchors, cache0, found, cache, roots, t0, complete, i + 1);
          }
          return;
        }
        if Apart(roots) {
          TurnOver(cfg, cache0, roots, now, stops, ends, ctx, i, complete);
        }
        i := i + 1;
      }
      found := cache;
      if walked > 0 {
        var dropped := Persist();
      }
      if Apart(roots) {
        AllTurnsTaken(cfg, cache0, roots, now, stops, ends, ctx, complete);
        CoverageKept(tree, cfg, anchors, cache0, found, cache, roots, t0, complete, i);
      }
    }

    /** Walks one due root of a pass under a context of its own. */
    method WalkRoot(roots: seq<Path>, i: nat, now: int, stops: nat -> bool, ends: nat -> bool, ctx: nat -> nat -> bool,
                    ghost start: map<Path, DirSize>, ghost t0: int, ghost complete0: set<nat>)
      returns (ghost complete: set<nat>)
      requires Valid() && i < |roots| && DueRoot(cfg, cache, roots[i], now) && !stops(i) && t0 <= clock
      requires forall j: nat :: j in complete0 ==> j < i
      requires Apart(roots) ==>
                 && Walked(tree, cfg, anchors, start, cache, roots, i, t0, complete0)
                 && InTurn(cfg, start, roots, now, stops, ends, ctx, i, complete0)
      modifies this`cache, this`clock, this`stepN, this`checks
      ensures Valid() && clock >= old(clock)
      ensures forall j: nat :: j in complete ==> j <= i
      ensures Apart(roots) ==>
                && Walked(tree, cfg, anchors, start, cache, roots, i + 1, t0, complete)
                && DueRoot(cfg, start, roots[i], now) && GoesOn(cfg, start, roots, now, stops, ends, i)
                && TurnsUpTo(cfg, start, roots, now, stops, ends, ctx, i + 1, complete)
    {
      hide Due, DueRoot, Covered, AllDue, SameOutside, Walked, InTurn, TurnsUpTo, GoesOn, Apart, Uncut;
      checks := 0;
      ghost var before, at := cache, clock;
      var r := Walk(roots[i], 0, ctx(i));
      complete := complete0 + if r.Done? then {i} else {};
      if Apart(roots) {
        TurnTaken(tree, cfg, anchors, start, before, roots, t0, now, stops, ends, ctx, i, complete0, r.Done?, checks);
        RootWalked(tree, cfg, anchors, start, before, cache, roots, i, t0, at, complete0, r.Done?);
      }
    }

    /** Adds one entry to the total of its directory. */
    method WalkEntry(dir: Path, i: nat, depth: nat, total0: Totals, ctx: nat -> bool) returns (ok: bool, total: Totals)
      requires Valid() && dir in tree.dirs && i < |tree.dirs[dir]| && total0 == tree.SizeOfFirst(dir, i)
      modifies this`cache, this`clock, this`stepN, this`checks
      ensures Valid() && clock >= old(clock)
      ensures SameOutside(old(cache), cache, dir + [tree.dirs[dir][i].name])
      ensures checks >= old(checks) && (ok <==> Uncut(ctx, old(checks), checks))
      ensures ok ==> total == tree.SizeOfFirst(dir, i + 1)
      ensures var child := dir + [tree.dirs[dir][i].name];
              ok && tree.Descends(dir, tree.dirs[dir][i]) && AllDue(cfg, old(cache), child, old(clock)) ==>
                Covered(tree, cfg, anchors, cache, child, depth + 1)
      decreases tree.Level(dir), 0
    {
      hide Covered, AllDue;
      var e := tree.dirs[dir][i];
      var child := dir + [e.name];
      ok, total := true, total0;
      if e.kind.Symlink? || child in tree.excluded {
        return;
      }
      if e.kind.Directory? {
        if child in tree.mounts {
          return;
        }
        var r := Walk(child, depth + 1, ctx);
        if r.Cut? {
          return false, total;
        }
        total := Plus(total, r.total);
      } else if e.kind.Regular? {
        total := Plus(total, Totals(e.kind.size, 1));
      }
    }
  }

  /** No root lies at or below another one. */
  predicate Apart(roots: seq<Path>)
  {
    forall i, j :: 0 <= i < |roots| && 0 <= j < |roots| && i != j ==> !(roots[i] <= roots[j])
  }

  ghost predicate SameUnder(a: map<Path, DirSize>, b: map<Path, DirSize>, dir: Path)
  {
    forall p :: dir <= p ==> (p in a <==> p in b) && (p in a ==> a[p] == b[p])
  }

  lemma OnlyBelow(a: map<Path, DirSize>, b: map<Path, DirSize>, dir: Path)
    requires forall p :: p != dir ==> (p in a <==> p in b) && (p in a ==> a[p] == b[p])
    ensures SameOutside(a, b, dir)
  {
  }

  lemma SameTwiceOutside(a: map<Path, DirSize>, b: map<Path, DirSize>, c: map<Path, DirSize>, dir: Path)
    requires SameOutside(a, b, dir) && SameOutside(b, c, dir)
    ensures SameOutside(a, c, dir)
  {
  }

  lemma DueLater(cfg: Config, cache: map<Path, DirSize>, dir: Path, t0: int, now: int)
    requires t0 <= now
    ensures AllDue(cfg, cache, dir, t0) ==> AllDue(cfg, cache, dir, now)
  {
  }

  lemma FreshIsNotDue(cfg: Config, cache: map<Path, DirSize>, dir: Path, t0: int, now: int)
    requires dir in cache && !Due(cfg, cache[dir], now) && t0 <= now
    ensures !Due(cfg, cache[dir], t0) && !AllDue(cfg, cache, dir, t0)
  {
    assert dir <= dir;
  }

  lemma SameAtFirst(a: map<Path, DirSize>)
    ensures forall dir :: SameUnder(a, a, dir)
  {
  }

  lemma StillDue(cfg: Config, a: map<Path, DirSize>, b: map<Path, DirSize>, dir: Path, t0: int, now: int)
    requires SameUnder(a, b, dir) && t0 <= now
    ensures AllDue(cfg, a, dir, t0) ==> AllDue(cfg, b, dir, now)
  {
  }

  /** Of two directories above one path, one is above the other. */
  lemma Nested(a: Path, b: Path, p: Path)
    requires a <= p && b <= p
    ensures a <= b || b <= a
  {
    if |a| <= |b| {
      assert a == p[..|a|] == b[..|a|];
    } else {
      assert b == p[..|b|] == a[..|b|];
    }
  }

  /** Walking one root leaves alone what lies below the roots apart from it. */
  lemma OtherRoots(t: Tree, cfg: Config, anchors: set<Path>, start: map<Path, DirSize>, before: map<Path, DirSize>,
                   after: map<Path, DirSize>, roots: seq<Path>, i: nat, complete: set<nat>, t0: int)
    requires i < |roots| && Apart(roots) && SameOutside(before, after, roots[i])
    requires forall j :: j in complete ==> j < i
    requires forall j :: i <= j < |roots| ==> SameUnder(start, before, roots[j])
    requires forall j :: j in complete && AllDue(cfg, start, roots[j], t0) ==> Covered(t, cfg, anchors, before, roots[j], 0)
    ensures forall j :: i < j < |roots| ==> SameUnder(start, after, roots[j])
    ensures forall j :: j in complete && AllDue(cfg, start, roots[j], t0) ==> Covered(t, cfg, anchors, after, roots[j], 0)
  {
    hide Covered, AllDue, SameUnder, SameOutside;
    forall j | 0 <= j < |roots| && j != i
      ensures SameUnder(before, after, roots[j])
    {
      SameBelowApart(before, after, roots[i], roots[j]);
    }
    forall j | i < j < |roots|
      ensures SameUnder(start, after, roots[j])
    {
      SameTwice(start, before, after, roots[j]);
    }
    forall j | j in complete && AllDue(cfg, start, roots[j], t0)
      ensures Covered(t, cfg, anchors, after, roots[j], 0)
    {
      CoveredStill(t, cfg, anchors, before, after, roots[j]);
    }
  }

  lemma SameBelowApart(a: map<Path, DirSize>, b: map<Path, DirSize>, root: Path, other: Path)
    requires SameOutside(a, b, root) && !(root <= other) && !(other <= root)
    ensures SameUnder(a, b, other)
  {
    forall p | other <= p
      ensures (p in a <==> p in b) && (p in a ==> a[p] == b[p])
    {
      if root <= p {
        Nested(other, root, p);
      }
    }
  }

  lemma SameTwice(a: map<Path, DirSize>, b: map<Path, DirSize>, c: map<Path, DirSize>, dir: Path)
    requires SameUnder(a, b, dir) && SameUnder(b, c, dir)
    ensures SameUnder(a, c, dir)
  {
  }

  lemma CoveredStill(t: Tree, cfg: Config, anchors: set<Path>, a: map<Path, DirSize>, b: map<Path, DirSize>, dir: Path)
    requires Covered(t, cfg, anchors, a, dir, 0) && SameUnder(a, b, dir)
    ensures Covered(t, cfg, anchors, b, dir, 0)
  {
  }

  // ------------------------------------------------------------------------------
  // Whose turn comes in a pass
  // ------------------------------------------------------------------------------

  predicate DueRoot(cfg: Config, cache: map<Path, DirSize>, root: Path, now: int)
  {
    root in cache ==> Due(cfg, cache[root], now)
  }

  /** The root is due, and nothing stops the pass before it. */
  ghost predicate Turn(cfg: Config, cache: map<Path, DirSize>, roots: seq<Path>, now: int, stops: nat -> bool, ends: nat -> bool, j: nat)
  {
    && j < |roots| && DueRoot(cfg, cache, roots[j], now)
    && (forall i: nat :: i <= j ==> !stops(i))
    && (forall i: nat :: i < j && DueRoot(cfg, cache, roots[i], now) ==> !ends(i))
  }

  /** The context never ends. */
  ghost predicate Unending(c: nat -> bool)
  {
    forall i: nat :: !c(i)
  }

  /** The pass goes on to root `n`. */
  ghost predicate GoesOn(cfg: Config, cache: map<Path, DirSize>, roots: seq<Path>, now: int, stops: nat -> bool, ends: nat -> bool, n: nat)
    requires n <= |roots|
  {
    && (forall i: nat :: i < n ==> !stops(i))
    && (forall i: nat :: i < n && DueRoot(cfg, cache, roots[i], now) ==> !ends(i))
  }

  /** Of the first `n` roots those whose turn came and that were not cut off are complete. */
  ghost predicate TurnsUpTo(cfg: Config, cache: map<Path, DirSize>, roots: seq<Path>, now: int, stops: nat -> bool,
                            ends: nat -> bool, ctx: nat -> nat -> bool, n: nat, complete: set<nat>)
  {
    && (forall j: nat :: j in complete ==> Turn(cfg, cache, roots, now, stops, ends, j) && !ctx(j)(0))
    && (forall j: nat :: j < n && Turn(cfg, cache, roots, now, stops, ends, j) && Unending(ctx(j)) ==> j in complete)
  }

  ghost predicate InTurn(cfg: Config, cache: map<Path, DirSize>, roots: seq<Path>, now: int, stops: nat -> bool,
                         ends: nat -> bool, ctx: nat -> nat -> bool, n: nat, complete: set<nat>)
  {
    && n <= |roots| && GoesOn(cfg, cache, roots, now, stops, ends, n)
    && TurnsUpTo(cfg, cache, roots, now, stops, ends, ctx, n, complete)
  }

  /** What the walks of the first `n` roots have left: the others untouched, the complete ones covered. */
  ghost predicate Walked(t: Tree, cfg: Config, anchors: set<Path>, start: map<Path, DirSize>, cache: map<Path, DirSize>,
                         roots: seq<Path>, n: nat, t0: int, complete: set<nat>)
  {
    && (forall j: nat :: j in complete ==> j < n <= |roots|)
    && (forall j: nat :: n <= j < |roots| ==> SameUnder(start, cache, roots[j]))
    && (forall j: nat :: j in complete && AllDue(cfg, start, roots[j], t0) ==> Covered(t, cfg, anchors, cache, roots[j], 0))
  }

  lemma NoneWalked(t: Tree, cfg: Config, anchors: set<Path>, cache: map<Path, DirSize>, roots: seq<Path>, t0: int,
                   now: int, stops: nat -> bool, ends: nat -> bool, ctx: nat -> nat -> bool)
    ensures Walked(t, cfg, anchors, cache, cache, roots, 0, t0, {})
    ensures InTurn(cfg, cache, roots, now, stops, ends, ctx, 0, {})
  {
    SameAtFirst(cache);
  }

  lemma StoppedHere(cfg: Config, cache: map<Path, DirSize>, roots: seq<Path>, now: int, stops: nat -> bool,
                    ends: nat -> bool, ctx: nat -> nat -> bool, n: nat, complete: set<nat>)
    requires InTurn(cfg, cache, roots, now, stops, ends, ctx, n, complete) && stops(n)
    ensures TurnsUpTo(cfg, cache, roots, now, stops, ends, ctx, |roots|, complete)
  {
    hide Unending, DueRoot;
  }

  lemma AllTurnsTaken(cfg: Config, cache: map<Path, DirSize>, roots: seq<Path>, now: int, stops: nat -> bool,
                      ends: nat -> bool, ctx: nat -> nat -> bool, complete: set<nat>)
    requires InTurn(cfg, cache, roots, now, stops, ends, ctx, |roots|, complete)
    ensures TurnsUpTo(cfg, cache, roots, now, stops, ends, ctx, |roots|, complete)
  {
    hide Unending, DueRoot;
  }

  lemma EndedHere(cfg: Config, cache: map<Path, DirSize>, roots: seq<Path>, now: int, stops: nat -> bool,
                  ends: nat -> bool, ctx: nat -> nat -> bool, n: nat, complete: set<nat>)
    requires n < |roots| && DueRoot(cfg, cache, roots[n], now) && ends(n)
    requires TurnsUpTo(cfg, cache, roots, now, stops, ends, ctx, n + 1, complete)
    ensures TurnsUpTo(cfg, cache, roots, now, stops, ends, ctx, |roots|, complete)
  {
    hide Unending, DueRoot;
  }

  lemma TurnOver(cfg: Config, cache: map<Path, DirSize>, roots: seq<Path>, now: int, stops: nat -> bool,
                 ends: nat -> bool, ctx: nat -> nat -> bool, n: nat, complete: set<nat>)
    requires n < |roots| && GoesOn(cfg, cache, roots, now, stops, ends, n) && !stops(n) && !ends(n)
    requires TurnsUpTo(cfg, cache, roots, now, stops, ends, ctx, n + 1, complete)
    ensures InTurn(cfg, cache, roots, now, stops, ends, ctx, n + 1, complete)
  {
    hide Unending, DueRoot, Turn;
  }

  lemma SameRoot(cfg: Config, a: map<Path, DirSize>, b: map<Path, DirSize>, root: Path, now: int)
    requires SameUnder(a, b, root)
    ensures DueRoot(cfg, a, root, now) <==> DueRoot(cfg, b, root, now)
  {
    assert root <= root;
  }

  lemma NotDue(t: Tree, cfg: Config, anchors: set<Path>, start: map<Path, DirSize>, cache: map<Path, DirSize>,
               roots: seq<Path>, n: nat, t0: int, complete: set<nat>, now: int, stops: nat -> bool, ends: nat -> bool,
               ctx: nat -> nat -> bool)
    requires n < |roots| && roots[n] in cache && !Due(cfg, cache[roots[n]], now) && !stops(n)
    requires Walked(t, cfg, anchors, start, cache, roots, n, t0, complete)
    requires InTurn(cfg, start, roots, now, stops, ends, ctx, n, complete)
    ensures Walked(t, cfg, anchors, start, cache, roots, n + 1, t0, complete)
    ensures InTurn(cfg, start, roots, now, stops, ends, ctx, n + 1, complete)
  {
    hide Covered, AllDue, SameUnder, Due, Unending;
    SameRoot(cfg, start, cache, roots[n], now);
  }

  lemma TurnTaken(t: Tree, cfg: Config, anchors: set<Path>, start: map<Path, DirSize>, before: map<Path, DirSize>,
                  roots: seq<Path>, t0: int, now: int, stops: nat -> bool, ends: nat -> bool, ctx: nat -> nat -> bool,
                  n: nat, complete: set<nat>, done: bool, checks: nat)
    requires n < |roots| && DueRoot(cfg, before, roots[n], now) && !stops(n)
    requires Walked(t, cfg, anchors, start, before, roots, n, t0, complete)
    requires InTurn(cfg, start, roots, now, stops, ends, ctx, n, complete)
    requires checks > 0 && (done <==> Uncut(ctx(n), 0, checks))
    ensures DueRoot(cfg, start, roots[n], now) && GoesOn(cfg, start, roots, now, stops, ends, n)
    ensures TurnsUpTo(cfg, start, roots, now, stops, ends, ctx, n + 1, complete + if done then {n} else {})
  {
    hide Covered, AllDue, SameUnder, DueRoot;
    SameRoot(cfg, start, before, roots[n], now);
    assert Turn(cfg, start, roots, now, stops, ends, n);
  }

  lemma RootWalked(t: Tree, cfg: Config, anchors: set<Path>, start: map<Path, DirSize>, before: map<Path, DirSize>,
                   after: map<Path, DirSize>, roots: seq<Path>, n: nat, t0: int, at: int, complete: set<nat>, done: bool)
    requires n < |roots| && Apart(roots) && t0 <= at && SameOutside(before, after, roots[n])
    requires Walked(t, cfg, anchors, start, before, roots, n, t0, complete)
    requires done && AllDue(cfg, before, roots[n], at) ==> Covered(t, cfg, anchors, after, roots[n], 0)
    ensures Walked(t, cfg, anchors, start, after, roots, n + 1, t0, complete + if done then {n} else {})
  {
    hide Covered, AllDue, SameUnder, SameOutside, Apart;
    OtherRoots(t, cfg, anchors, start, before, after, roots, n, complete, t0);
    StillDue(cfg, start, before, roots[n], t0, at);
  }

  // ------------------------------------------------------------------------------
  // What the entry cap does to the pickers
  // ------------------------------------------------------------------------------

  /** A picker rooted at `dir` or at an anchor below it shows the directory. */
  predicate Shown(t: Tree, cfg: Config, anchors: set<Path>, dir: Path, p: Path)
  {
    dir <= p && t.Visited(dir, p) && DepthAt(anchors, dir, 0, p) <= cfg.keepDepth
  }

  /** What enforcing a cap of `max` may leave of a cache that exceeds it. */
  ghost predicate IsCut(full: map<Path, DirSize>, max: int, cut: map<Path, DirSize>)
  {
    && (forall p :: p in cut ==> p in full && cut[p] == full[p])
    && |cut| == max
    && forall gone, kept :: gone in full && gone !in cut && kept in cut ==>
                              full[gone].total.files <= full[kept].total.files
  }

  lemma CutSize(full: map<Path, DirSize>, max: int, cut: map<Path, DirSize>)
    requires IsCut(full, max, cut)
    ensures |cut| == max
  {
  }

  /** What persisting leaves of a cache. */
  ghost predicate KeptOf(full: map<Path, DirSize>, max: int, cache: map<Path, DirSize>)
  {
    if 0 < max < |full| then IsCut(full, max, cache) else cache == full
  }

  function AtLeast(full: map<Path, DirSize>, p: Path): set<Path>
    requires p in full
  {
    set q | q in full && full[q].total.files >= full[p].total.files
  }

  /** Every directory that is shown is, even among those with as many files, within the cap. */
  ghost predicate Spared(t: Tree, cfg: Config, anchors: set<Path>, full: map<Path, DirSize>, dir: Path)
  {
    0 < cfg.maxEntries < |full| ==>
      forall p :: p in full && Shown(t, cfg, anchors, dir, p) ==> |AtLeast(full, p)| <= cfg.maxEntries
  }

  lemma CutKeepsSpared(full: map<Path, DirSize>, max: int, cut: map<Path, DirSize>, p: Path)
    requires IsCut(full, max, cut) && p in full && |AtLeast(full, p)| <= max
    ensures p in cut
  {
    assert p !in cut ==> |cut.Keys + {p}| == |cut| + 1;
    if p !in cut {
      assert cut.Keys + {p} <= AtLeast(full, p);
      Cardinality(cut.Keys + {p}, AtLeast(full, p));
    }
  }

  /** The `n` entries with the most files among `keys`. */
  lemma {:induction false} TopOf(full: map<Path, DirSize>, keys: set<Path>, n: nat) returns (top: set<Path>)
    requires keys <= full.Keys && n <= |keys|
    ensures top <= keys && |top| == n
    ensures forall k, g :: k in top && g in keys - top ==> full[g].total.files <= full[k].total.files
  {
    if n == 0 {
      top := {};
    } else {
      var k := Largest(full, keys);
      var rest := TopOf(full, keys - {k}, n - 1);
      top := rest + {k};
    }
  }

  /** A directory that is not spared is dropped by some cut. */
  lemma CutDrops(full: map<Path, DirSize>, max: nat, p: Path) returns (cut: map<Path, DirSize>)
    requires p in full && max < |full| && |AtLeast(full, p)| > max
    ensures IsCut(full, max, cut) && p !in cut
  {
    var others := full.Keys - {p};
    var top := TopOf(full, others, max);
    cut := map q | q in top :: full[q];
    assert cut.Keys == top;
    forall k | k in top
      ensures full[p].total.files <= full[k].total.files
    {
      if full[k].total.files < full[p].total.files {
        var above := AtLeast(full, p) - {p};
        assert above <= top - {k};
        Cardinality(above, top - {k});
      }
    }
    forall gone, kept | gone in full && gone !in cut && kept in cut
      ensures full[gone].total.files <= full[kept].total.files
    {
      if gone != p {
        assert gone in others - top;
      }
    }
  }

  /**
   Exactly when the cap leaves the pickers alone: every way to enforce it keeps a covered root
   covered if and only if every shown directory has at most as many entries with no fewer files,
   itself included, as the cap allows.
   */
  lemma CapCoversExactly(t: Tree, cfg: Config, anchors: set<Path>, full: map<Path, DirSize>, dir: Path)
    requires Covered(t, cfg, anchors, full, dir, 0) && 0 < cfg.maxEntries < |full|
    ensures (forall cut :: IsCut(full, cfg.maxEntries, cut) ==> Covered(t, cfg, anchors, cut, dir, 0)) <==>
            Spared(t, cfg, anchors, full, dir)
  {
    if Spared(t, cfg, anchors, full, dir) {
      forall cut | IsCut(full, cfg.maxEntries, cut)
        ensures Covered(t, cfg, anchors, cut, dir, 0)
      {
        CutKeepsCovered(t, cfg, anchors, full, cut, dir);
      }
    } else {
      var p :| p in full && Shown(t, cfg, anchors, dir, p) && |AtLeast(full, p)| > cfg.maxEntries;
      var cut := CutDrops(full, cfg.maxEntries, p);
      hide IsCut;
      assert !Covered(t, cfg, anchors, cut, dir, 0);
    }
  }

  lemma CutKeepsCovered(t: Tree, cfg: Config, anchors: set<Path>, full: map<Path, DirSize>, cut: map<Path, DirSize>, dir: Path)
    requires Covered(t, cfg, anchors, full, dir, 0) && Spared(t, cfg, anchors, full, dir)
    requires 0 < cfg.maxEntries < |full| && IsCut(full, cfg.maxEntries, cut)
    ensures Covered(t, cfg, anchors, cut, dir, 0)
  {
    hide IsCut, AtLeast;
    forall p | dir <= p && t.Visited(dir, p) && DepthAt(anchors, dir, 0, p) <= cfg.keepDepth
      ensures p in cut
    {
      assert Shown(t, cfg, anchors, dir, p);
      CutKeepsSpared(full, cfg.maxEntries, cut, p);
    }
  }

  /**
   A complete root whose entries were all due at the start is covered by what the pass found, and
   by what it kept if the cap spares what is shown.
   */
  ghost predicate PickersServed(t: Tree, cfg: Config, anchors: set<Path>, start: map<Path, DirSize>, roots: seq<Path>, t0: int,
                                found: map<Path, DirSize>, cache: map<Path, DirSize>, complete: set<nat>)
  {
    forall j: nat :: j in complete && j < |roots| && AllDue(cfg, start, roots[j], t0) ==>
                       && Covered(t, cfg, anchors, found, roots[j], 0)
                       && (Spared(t, cfg, anchors, found, roots[j]) ==> Covered(t, cfg, anchors, cache, roots[j], 0))
  }

  lemma CoverageKept(t: Tree, cfg: Config, anchors: set<Path>, start: map<Path, DirSize>, found: map<Path, DirSize>,
                     cache: map<Path, DirSize>, roots: seq<Path>, t0: int, complete: set<nat>, n: nat)
    requires Walked(t, cfg, anchors, start, found, roots, n, t0, complete)
    requires cache == found || KeptOf(found, cfg.maxEntries, cache)
    ensures PickersServed(t, cfg, anchors, start, roots, t0, found, cache, complete)
  {
    hide Covered, AllDue, SameUnder, IsCut, Spared;
    forall j: nat | j in complete && AllDue(cfg, start, roots[j], t0) && Spared(t, cfg, anchors, found, roots[j])
      ensures Covered(t, cfg, anchors, cache, roots[j], 0)
    {
      if cache != found {
        CutKeepsCovered(t, cfg, anchors, found, cache, roots[j]);
      }
    }
  }

  /** The entry cap keeps by file count alone: two directories a picker shows, and room for one entry. */
  lemma CapCanUncover() returns (t: Tree, cfg: Config)
    ensures t.Valid() && cfg.maxEntries > 0
    ensures forall cache: map<Path, DirSize> :: |cache| <= cfg.maxEntries ==> !Covered(t, cfg, {}, cache, [], 0)
  {
    var root: Path, child: Path := [], ["a"];
    t := Tree(map[root := [Entry("a", Directory)], child := []], 1, {}, {});
    cfg := Config(0, 0, 0, 0, 1, 0, 1, 0, 0);
    assert child[..0] == root && child == root + ["a"];
    assert Entry("a", Directory) in t.dirs[root] && t.Descends(root, Entry("a", Directory));
    assert t.Visited(root, root) && t.Visited(root, child);
    assert DepthAt({}, root, 0, root) == 0 && DepthAt({}, root, 0, child) == 1;
    forall cache: map<Path, DirSize> | |cache| <= 1
      ensures !Covered(t, cfg, {}, cache, root, 0)
    {
      if root in cache && child in cache {
        TwoEntries(cache, root, child);
      }
    }
  }

  lemma TwoEntries(cache: map<Path, DirSize>, a: Path, b: Path)
    requires a in cache && b in cache && a != b
    ensures |cache| >= 2
  {
    Cardinality({a, b}, cache.Keys);
  }

  lemma NothingChanged(a: map<Path, DirSize>, dir: Path)
    ensures SameBut(a, a, dir, NamesOf([]))
  {
  }

  lemma NoChildren(t: Tree, cfg: Config, anchors: set<Path>, cache: map<Path, DirSize>, dir: Path, depth: nat)
    requires dir in t.dirs
    ensures ChildrenCovered(t, cfg, anchors, cache, dir, depth, 0)
  {
  }

  lemma NextName(t: Tree, dir: Path, i: nat)
    requires t.Valid() && dir in t.dirs && i < |t.dirs[dir]|
    ensures var entries := t.dirs[dir];
            && entries[i].name !in NamesOf(entries[..i])
            && NamesOf(entries[..i + 1]) == NamesOf(entries[..i]) + {entries[i].name}
  {
    var entries := t.dirs[dir];
    assert entries[..i + 1] == entries[..i] + [entries[i]];
  }

  lemma SameFromBut(a: map<Path, DirSize>, b: map<Path, DirSize>, dir: Path, names: set<string>)
    requires SameBut(a, b, dir, names)
    ensures SameOutside(a, b, dir)
  {
  }

  lemma UnreadableCovered(t: Tree, cfg: Config, anchors: set<Path>, cache: map<Path, DirSize>, dir: Path, depth: nat)
    requires dir !in t.dirs && dir in cache
    ensures Covered(t, cfg, anchors, cache, dir, depth)
  {
    forall p | dir <= p && t.Visited(dir, p)
      ensures p == dir
    {
      if p != dir {
        VisitedThroughChild(t, dir, p);
      }
    }
  }

  /**
   Picker coverage: after a complete walk of a root that found every entry due, every visited
   directory within the keep depth of an enclosing anchor, or of the root, has an entry.
   */
  lemma PickerCoverage(t: Tree, cfg: Config, anchors: set<Path>, cache: map<Path, DirSize>, root: Path, a: Path, p: Path)
    requires Covered(t, cfg, anchors, cache, root, 0)
    requires Encloses(anchors, root, a, p) && t.Visited(root, p)
    requires |p| - |a| <= cfg.keepDepth
    ensures p in cache
  {
    DepthIsAnchorDistance(anchors, root, p);
  }
}
