/** The storage rollup: what each destination holds, and how that splits over the repos. */
module Rollup {
  import opened Sums

  datatype StatKey = StatKey(snap: string, rev: int, storage: string)

  datatype StatRow = StatRow(repo: string, dest: Destination, total: nat, uniq: nat, captured: int)

  datatype Destination = Destination(key: string, title: string)

  type Table = map<StatKey, StatRow>

  // ------------------------------------------------------------------------------
  // Check runs
  // ------------------------------------------------------------------------------

  /** One line of a check run. */
  datatype RunRow = RunRow(snap: string, rev: int, total: nat, uniq: nat)

  /** What all rows of one check run share. */
  datatype RunHead = RunHead(repo: string, storage: string, dest: Destination, captured: int)

  function KeyIn(h: RunHead, r: RunRow): StatKey
  {
    StatKey(r.snap, r.rev, h.storage)
  }

  function RowIn(h: RunHead, r: RunRow): StatRow
  {
    StatRow(h.repo, h.dest, r.total, r.uniq, h.captured)
  }

  /** Row `i` is the last of the run with its key. */
  predicate LastWithKey(h: RunHead, run: seq<RunRow>, i: nat)
    requires i < |run|
  {
    forall j :: i < j < |run| ==> KeyIn(h, run[j]) != KeyIn(h, run[i])
  }

  function RunKeys(h: RunHead, run: seq<RunRow>): set<StatKey>
  {
    set i | 0 <= i < |run| :: KeyIn(h, run[i])
  }

  /** The table after the rows of a run have been written one by one. */
  function Written(t: Table, h: RunHead, run: seq<RunRow>): Table
  {
    if run == [] then t
    else Written(t, h, run[..|run| - 1])[KeyIn(h, run[|run| - 1]) := RowIn(h, run[|run| - 1])]
  }

  lemma {:induction false} WrittenKeys(t: Table, h: RunHead, run: seq<RunRow>)
    ensures Written(t, h, run).Keys == t.Keys + RunKeys(h, run)
  {
    if run != [] {
      var init, last := run[..|run| - 1], run[|run| - 1];
      WrittenKeys(t, h, init);
      assert run == init + [last];
      assert RunKeys(h, run) == RunKeys(h, init) + {KeyIn(h, last)} by {
        assert forall i :: 0 <= i < |init| ==> run[i] == init[i];
        assert run[|init|] == last;
      }
    }
  }

  lemma {:induction false} WrittenLast(t: Table, h: RunHead, run: seq<RunRow>, i: nat)
    requires i < |run| && LastWithKey(h, run, i)
    ensures KeyIn(h, run[i]) in Written(t, h, run) && Written(t, h, run)[KeyIn(h, run[i])] == RowIn(h, run[i])
  {
    var init := run[..|run| - 1];
    if i < |init| {
      assert init[i] == run[i];
      assert KeyIn(h, run[|init|]) != KeyIn(h, run[i]);
      assert LastWithKey(h, init, i);
      WrittenLast(t, h, init, i);
    }
  }

  lemma {:induction false} WrittenElsewhere(t: Table, h: RunHead, run: seq<RunRow>, k: StatKey)
    requires k in t && k !in RunKeys(h, run)
    ensures k in Written(t, h, run) && Written(t, h, run)[k] == t[k]
  {
    if run != [] {
      var init, last := run[..|run| - 1], run[|run| - 1];
      assert KeyIn(h, run[|init|]) in RunKeys(h, run);
      assert k !in RunKeys(h, init) by {
        assert forall i :: 0 <= i < |init| ==> run[i] == init[i];
      }
      WrittenElsewhere(t, h, init, k);
    }
  }

  class StatsStore {
    var rows: Table

    constructor ()
      ensures rows == map[]
    {
      rows := map[];
    }

    /** Writes the rows of one check run: of the rows with one key the last wins, nothing else changes. */
    method UpsertCheckRun(h: RunHead, run: seq<RunRow>)
      modifies this
      ensures rows.Keys == old(rows).Keys + RunKeys(h, run)
      ensures forall i :: 0 <= i < |run| && LastWithKey(h, run, i) ==> rows[KeyIn(h, run[i])] == RowIn(h, run[i])
      ensures forall k :: k in old(rows) && k !in RunKeys(h, run) ==> rows[k] == old(rows)[k]
    {
      var n := 0;
      while n < |run|
        invariant 0 <= n <= |run|
        invariant rows == Written(old(rows), h, run[..n])
      {
        assert run[..n + 1][..n] == run[..n];
        rows := rows[KeyIn(h, run[n]) := RowIn(h, run[n])];
        n := n + 1;
      }
      assert run[..n] == run;
      WrittenKeys(old(rows), h, run);
      forall i | 0 <= i < |run| && LastWithKey(h, run, i)
        ensures KeyIn(h, run[i]) in rows && rows[KeyIn(h, run[i])] == RowIn(h, run[i])
      {
        WrittenLast(old(rows), h, run, i);
      }
      forall k | k in old(rows) && k !in RunKeys(h, run)
        ensures k in rows && rows[k] == old(rows)[k]
      {
        WrittenElsewhere(old(rows), h, run, k);
      }
    }

    /** One summary per destination over the newest selected revision of every snapshot. */
    method QueryDestinations(repos: set<string>, storage: string) returns (out: map<Destination, Amounts>)
      ensures var t := Selected(rows, repos, storage);
              IsSummary(t, DestOf(t), out)
    {
      var t := Selected(rows, repos, storage);
      out := Summarise(t, DestOf(t));
    }

    /** The same over the whole table, kept apart by snapshot and repo. */
    method ListRepoDestinations() returns (out: map<Share, Amounts>)
      ensures IsSummary(rows, ShareOf(rows), out)
    {
      out := Summarise(rows, ShareOf(rows));
    }
  }

  /** The rows a query looks at: no repo named means every repo, and so for the storage. */
  function Selected(t: Table, repos: set<string>, storage: string): Table
  {
    map k | k in t && (repos == {} || t[k].repo in repos) && (storage == "" || k.storage == storage) :: t[k]
  }

  /** `GROUP BY`: one summary per group that some newest row falls into. */
  method Summarise<G(==)>(t: Table, group: map<StatKey, G>) returns (out: map<G, Amounts>)
    requires group.Keys == Latest(t)
    ensures IsSummary(t, group, out)
  {
    hide Latest, Totals, Uniques, Ones, Fibre, Total;
    out := map[];
    var todo := set k | k in group :: group[k];
    while todo != {}
      invariant out.Keys + todo == group.Values && out.Keys !! todo
      invariant forall g :: g in out ==> out[g] == AmountsOf(t, group, g)
      decreases todo
    {
      var g :| g in todo;
      var referenced := SumValues(Fibre(Totals(t), group, g));
      var unique := SumValues(Fibre(Uniques(t), group, g));
      var revisions := SumValues(Fibre(Ones(t), group, g));
      out := out[g := Amounts(referenced, unique, revisions)];
      todo := todo - {g};
    }
  }

  // ------------------------------------------------------------------------------
  // What the queries mean
  // ------------------------------------------------------------------------------

  /** The rows of rank one: no other revision of the snapshot on the storage is higher. */
  function Latest(t: Table): (r: set<StatKey>)
    ensures r <= t.Keys
  {
    set k | k in t && forall x :: x in t && x.snap == k.snap && x.storage == k.storage ==> x.rev <= k.rev
  }

  function Totals(t: Table): map<StatKey, nat>
  {
    map k | k in Latest(t) :: t[k].total
  }

  function Uniques(t: Table): map<StatKey, nat>
  {
    map k | k in Latest(t) :: t[k].uniq
  }

  function Ones(t: Table): map<StatKey, nat>
  {
    map k | k in Latest(t) :: 1
  }

  function DestOf(t: Table): map<StatKey, Destination>
  {
    map k | k in Latest(t) :: t[k].dest
  }

  /** What one repo's snapshot costs on one destination. */
  datatype Share = Share(snap: string, repo: string, dest: Destination)

  function ShareAt(t: Table, k: StatKey): Share
    requires k in t
  {
    Share(k.snap, t[k].repo, t[k].dest)
  }

  function ShareOf(t: Table): map<StatKey, Share>
  {
    map k | k in Latest(t) :: ShareAt(t, k)
  }

  datatype Amounts = Amounts(referenced: nat, unique: nat, revisions: nat)

  ghost function AmountsOf<G>(t: Table, group: map<StatKey, G>, g: G): Amounts
  {
    Amounts(Total(Fibre(Totals(t), group, g)), Total(Fibre(Uniques(t), group, g)), Total(Fibre(Ones(t), group, g)))
  }

  ghost predicate IsSummary<G>(t: Table, group: map<StatKey, G>, out: map<G, Amounts>)
  {
    && out.Keys == group.Values
    && forall g :: g in out ==> out[g] == AmountsOf(t, group, g)
  }

  /** Each snapshot on each storage counts through exactly one row, its highest revision. */
  lemma OnePerSnapshot(t: Table, k: StatKey)
    requires k in t
    ensures exists top :: top in Latest(t) && top.snap == k.snap && top.storage == k.storage && k.rev <= top.rev
    ensures forall a, b :: a in Latest(t) && b in Latest(t) && a.snap == b.snap && a.storage == b.storage ==> a == b
  {
    var peers := set x | x in t && x.snap == k.snap && x.storage == k.storage;
    assert k in peers;
    var top := Highest(peers);
    assert top in Latest(t);
  }

  lemma LatestPeer(t: Table, k: StatKey) returns (top: StatKey)
    requires k in t
    ensures top in Latest(t) && top.snap == k.snap && top.storage == k.storage && k.rev <= top.rev
  {
    OnePerSnapshot(t, k);
    top :| top in Latest(t) && top.snap == k.snap && top.storage == k.storage && k.rev <= top.rev;
  }

  lemma {:induction false} Highest(s: set<StatKey>) returns (top: StatKey)
    requires s != {}
    ensures top in s && forall x :: x in s ==> x.rev <= top.rev
    decreases s
  {
    top :| top in s;
    if s != {top} {
      var other := Highest(s - {top});
      if other.rev > top.rev {
        top := other;
      }
    }
  }

  // ------------------------------------------------------------------------------
  // Conservation
  // ------------------------------------------------------------------------------

  /** Every snapshot that one of the repos has a row of is, at its highest revision, theirs. */
  ghost predicate OwnTheirSnapshots(t: Table, repos: set<string>)
  {
    forall k, top :: k in t && t[k].repo in repos && top in Latest(t) && top.snap == k.snap && top.storage == k.storage ==>
                       t[top].repo in repos
  }

  /** The newest rows of the whole table that belong to the selection. */
  ghost function LatestSelected(t: Table, repos: set<string>): set<StatKey>
  {
    set k | k in Latest(t) && (repos == {} || t[k].repo in repos)
  }

  /**
   A query for some repos counts just the newest rows of those repos exactly when no snapshot
   of theirs has been taken over, at a higher revision, by a repo outside the query.
   */
  lemma SelectionIsExact(t: Table, repos: set<string>)
    ensures Latest(Selected(t, repos, "")) == LatestSelected(t, repos) <==> OwnTheirSnapshots(t, repos)
  {
    var s := Selected(t, repos, "");
    if OwnTheirSnapshots(t, repos) {
      forall k | k in Latest(s)
        ensures k in Latest(t)
      {
        var top := LatestPeer(t, k);
        if repos == {} {
          assert s == t;
        } else {
          assert t[k].repo in repos && t[top].repo in repos;
          assert top in s;
          assert k == top;
        }
      }
    } else {
      var k, top :| k in t && t[k].repo in repos && top in Latest(t) && top.snap == k.snap && top.storage == k.storage &&
        t[top].repo !in repos;
      assert k in s;
      var mine := LatestPeer(s, k);
      OnePerSnapshot(t, k);
      assert mine in Latest(t) ==> mine == top;
    }
  }

  /**
   A table on which a query for one repo is not exact: its snapshot has since been recorded, at
   a higher revision, by another repo. The query then counts the older revision, which no
   breakdown row holds.
   */
  lemma SelectionCanCountMore() returns (t: Table, mine: StatKey, theirs: StatKey)
    ensures !OwnTheirSnapshots(t, {"a"})
    ensures mine in Latest(Selected(t, {"a"}, "")) && mine !in Latest(t) && Latest(t) == {theirs}
    ensures t[mine].total > t[theirs].total && t[theirs].repo != "a"
  {
    var d := Destination("key", "title");
    mine, theirs := StatKey("snap", 1, "far"), StatKey("snap", 2, "far");
    t := map[mine := StatRow("a", d, 8, 8, 0), theirs := StatRow("b", d, 5, 5, 0)];
    assert mine in t && theirs in t && theirs in Latest(t);
    assert Selected(t, {"a"}, "").Keys == {mine};
    assert Latest(t) == {theirs};
    assert t[mine].repo in {"a"} && t[theirs].repo !in {"a"};
  }

  /** The shares of one destination in a breakdown that belong to the selected repos. */
  function SharesOf(out: map<Share, Amounts>, repos: set<string>, d: Destination): map<Share, Amounts>
  {
    map g | g in out && g.dest == d && (repos == {} || g.repo in repos) :: out[g]
  }

  function Referenced(shares: map<Share, Amounts>): map<Share, nat>
  {
    map g | g in shares :: shares[g].referenced
  }

  function Unique(shares: map<Share, Amounts>): map<Share, nat>
  {
    map g | g in shares :: shares[g].unique
  }

  function Revisions(shares: map<Share, Amounts>): map<Share, nat>
  {
    map g | g in shares :: shares[g].revisions
  }

  ghost function Groups(t: Table, repos: set<string>, d: Destination): set<Share>
  {
    set k | k in LatestSelected(t, repos) && t[k].dest == d :: ShareAt(t, k)
  }

  lemma SharesAddUp(t: Table, repos: set<string>, m: map<StatKey, nat>, part: map<StatKey, nat>, d: Destination)
    requires m.Keys == Latest(t)
    requires part.Keys == LatestSelected(t, repos) && forall k :: k in part ==> part[k] == m[k]
    ensures Total(GroupTotals(m, ShareOf(t), Groups(t, repos, d))) == Total(Fibre(part, DestOf(t), d))
  {
    var groups := Groups(t, repos, d);
    var mine := Fibre(part, DestOf(t), d);
    GroupsAddUp(mine, ShareOf(t), groups);
    forall g | g in groups
      ensures Fibre(mine, ShareOf(t), g) == Fibre(m, ShareOf(t), g)
    {
    }
    assert GroupTotals(mine, ShareOf(t), groups) == GroupTotals(m, ShareOf(t), groups);
  }

  /** The destination's own figure does not depend on whether rows are looked up before or after the selection. */
  lemma SameFibre(t: Table, repos: set<string>, part: map<StatKey, nat>, d: Destination)
    requires OwnTheirSnapshots(t, repos)
    requires part.Keys == LatestSelected(t, repos)
    ensures Fibre(part, DestOf(Selected(t, repos, "")), d) == Fibre(part, DestOf(t), d)
  {
    SelectionIsExact(t, repos);
  }

  /**
   Conservation: whatever check runs the table has seen, the per-repo rows of a destination
   add up to the destination's own referenced bytes, unique bytes and revisions; with no repo
   selected always, and for a selection whenever it is exact.
   */
  lemma RollupConserves(t: Table, repos: set<string>, node: map<Destination, Amounts>, shares: map<Share, Amounts>, d: Destination)
    requires OwnTheirSnapshots(t, repos)
    requires IsSummary(Selected(t, repos, ""), DestOf(Selected(t, repos, "")), node)
    requires IsSummary(t, ShareOf(t), shares)
    ensures var mine := SharesOf(shares, repos, d);
            if d in node then
              && Total(Referenced(mine)) == node[d].referenced
              && Total(Unique(mine)) == node[d].unique
              && Total(Revisions(mine)) == node[d].revisions
            else
              mine == map[]
  {
    var s := Selected(t, repos, "");
    hide Total, Latest, Selected, Fibre, OwnTheirSnapshots, SharesOf, ShareOf, LatestSelected, Groups, GroupTotals, Referenced, Unique, Revisions, DestOf, Totals, Uniques, Ones;
    if d in node {
      BreakdownOf(t, repos, shares, d);
      ColumnsOf(t, repos);
      SumsAgree(t, repos, Totals(t), Totals(s), d, Referenced(SharesOf(shares, repos, d)));
      SumsAgree(t, repos, Uniques(t), Uniques(s), d, Unique(SharesOf(shares, repos, d)));
      SumsAgree(t, repos, Ones(t), Ones(s), d, Revisions(SharesOf(shares, repos, d)));
    } else {
      NoSharesElsewhere(t, repos, node, shares, d);
    }
  }

  lemma NoSharesElsewhere(t: Table, repos: set<string>, node: map<Destination, Amounts>, shares: map<Share, Amounts>, d: Destination)
    requires OwnTheirSnapshots(t, repos)
    requires node.Keys == DestOf(Selected(t, repos, "")).Values
    requires IsSummary(t, ShareOf(t), shares)
    requires d !in node
    ensures SharesOf(shares, repos, d) == map[]
  {
    SelectionIsExact(t, repos);
    MineAreGroups(t, repos, shares, d);
    forall k | k in LatestSelected(t, repos)
      ensures t[k].dest != d
    {
      assert DestOf(Selected(t, repos, ""))[k] in node;
    }
    assert SharesOf(shares, repos, d).Keys == {};
  }

  /** The selection's columns are the table's columns, cut down to the selected rows. */
  lemma ColumnsOf(t: Table, repos: set<string>)
    requires OwnTheirSnapshots(t, repos)
    ensures var s := Selected(t, repos, "");
            && Totals(t).Keys == Uniques(t).Keys == Ones(t).Keys == Latest(t)
            && Totals(s).Keys == Uniques(s).Keys == Ones(s).Keys == LatestSelected(t, repos)
            && (forall k :: k in Totals(s) ==> k in Totals(t) && Totals(s)[k] == Totals(t)[k])
            && (forall k :: k in Uniques(s) ==> k in Uniques(t) && Uniques(s)[k] == Uniques(t)[k])
            && forall k :: k in Ones(s) ==> k in Ones(t) && Ones(s)[k] == Ones(t)[k]
  {
    SelectionIsExact(t, repos);
    hide Latest, OwnTheirSnapshots;
  }

  /** What the breakdown holds for one destination, column by column. */
  lemma BreakdownOf(t: Table, repos: set<string>, shares: map<Share, Amounts>, d: Destination)
    requires IsSummary(t, ShareOf(t), shares)
    ensures var mine := SharesOf(shares, repos, d);
            && Referenced(mine) == GroupTotals(Totals(t), ShareOf(t), Groups(t, repos, d))
            && Unique(mine) == GroupTotals(Uniques(t), ShareOf(t), Groups(t, repos, d))
            && Revisions(mine) == GroupTotals(Ones(t), ShareOf(t), Groups(t, repos, d))
  {
    hide Total, Totals, Uniques, Ones, ShareOf, Groups;
    MineAreGroups(t, repos, shares, d);
  }

  lemma SumsAgree(t: Table, repos: set<string>, m: map<StatKey, nat>, part: map<StatKey, nat>, d: Destination, column: map<Share, nat>)
    requires OwnTheirSnapshots(t, repos)
    requires m.Keys == Latest(t)
    requires part.Keys == LatestSelected(t, repos) && forall k :: k in part ==> part[k] == m[k]
    requires column == GroupTotals(m, ShareOf(t), Groups(t, repos, d))
    ensures Total(column) == Total(Fibre(part, DestOf(Selected(t, repos, "")), d))
  {
    hide *;
    SharesAddUp(t, repos, m, part, d);
    SameFibre(t, repos, part, d);
  }

  lemma MineAreGroups(t: Table, repos: set<string>, shares: map<Share, Amounts>, d: Destination)
    requires IsSummary(t, ShareOf(t), shares)
    ensures SharesOf(shares, repos, d).Keys == Groups(t, repos, d)
  {
    hide Latest, AmountsOf;
    forall g | g in SharesOf(shares, repos, d)
      ensures g in Groups(t, repos, d)
    {
      var k :| k in ShareOf(t) && ShareOf(t)[k] == g;
      InGroups(t, repos, d, k);
    }
    forall g | g in Groups(t, repos, d)
      ensures g in SharesOf(shares, repos, d)
    {
      var k :| k in LatestSelected(t, repos) && t[k].dest == d && ShareAt(t, k) == g;
      assert ShareOf(t)[k] == g;
    }
  }

  lemma InGroups(t: Table, repos: set<string>, d: Destination, k: StatKey)
    requires k in LatestSelected(t, repos) && t[k].dest == d
    ensures ShareAt(t, k) in Groups(t, repos, d)
  {
    hide Latest;
  }
}
