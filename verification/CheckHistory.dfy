/** The rollup told from the check runs themselves: every figure is a sum over the lines that were written last. */
module CheckHistory {
  import opened Sums
  import opened Rollup

  datatype CheckRun = CheckRun(head: RunHead, lines: seq<RunRow>)

  /** The table after a history of check runs. */
  function History(runs: seq<CheckRun>): Table
  {
    if runs == [] then map[]
    else
      var last := runs[|runs| - 1];
      Written(History(runs[..|runs| - 1]), last.head, last.lines)
  }

  /** One line together with what its run said of all of them. */
  datatype Line = Line(head: RunHead, row: RunRow)

  /** The b-th line of the a-th run speaks about the revision. */
  predicate SpeaksOf(runs: seq<CheckRun>, a: nat, b: nat, k: StatKey)
  {
    && a < |runs| && b < |runs[a].lines|
    && runs[a].lines[b].snap == k.snap && runs[a].lines[b].rev == k.rev && runs[a].head.storage == k.storage
  }

  /** It is the last that does. */
  ghost predicate SpeaksLast(runs: seq<CheckRun>, a: nat, b: nat, k: StatKey)
  {
    SpeaksOf(runs, a, b, k) && forall x: nat, y: nat :: SpeaksOf(runs, x, y, k) ==> x < a || (x == a && y <= b)
  }

  ghost predicate LastLine(runs: seq<CheckRun>, k: StatKey, l: Line)
  {
    exists a: nat, b: nat :: SpeaksLast(runs, a, b, k) && l == Line(runs[a].head, runs[a].lines[b])
  }

  /** The row holds what the line says. */
  predicate Holds(t: Table, k: StatKey, l: Line)
  {
    && k in t
    && t[k].repo == l.head.repo && t[k].dest == l.head.dest && t[k].captured == l.head.captured
    && t[k].total == l.row.total && t[k].uniq == l.row.uniq
  }

  lemma {:induction false} LastOfKey(h: RunHead, lines: seq<RunRow>, i: nat) returns (b: nat)
    requires i < |lines|
    ensures i <= b < |lines| && KeyIn(h, lines[b]) == KeyIn(h, lines[i]) && LastWithKey(h, lines, b)
    decreases |lines| - i
  {
    if LastWithKey(h, lines, i) {
      b := i;
    } else {
      var j :| i < j < |lines| && KeyIn(h, lines[j]) == KeyIn(h, lines[i]);
      b := LastOfKey(h, lines, j);
    }
  }

  /** A line of an earlier run is the last still when the runs that follow do not speak of the revision. */
  lemma StaysLast(runs: seq<CheckRun>, k: StatKey, l: Line)
    requires runs != [] && LastLine(runs[..|runs| - 1], k, l)
    requires forall a: nat, b: nat :: SpeaksOf(runs, a, b, k) ==> a < |runs| - 1
    ensures LastLine(runs, k, l)
  {
    var init := runs[..|runs| - 1];
    var a: nat, b: nat :| SpeaksLast(init, a, b, k) && l == Line(init[a].head, init[a].lines[b]);
    forall x: nat, y: nat | SpeaksOf(runs, x, y, k)
      ensures x < a || (x == a && y <= b)
    {
      assert SpeaksOf(init, x, y, k);
    }
    assert SpeaksLast(runs, a, b, k);
  }

  lemma InRunKeys(runs: seq<CheckRun>, b: nat, k: StatKey)
    requires runs != []
    ensures SpeaksOf(runs, |runs| - 1, b, k) ==> k in RunKeys(runs[|runs| - 1].head, runs[|runs| - 1].lines)
  {
    var last := runs[|runs| - 1];
    if SpeaksOf(runs, |runs| - 1, b, k) {
      assert KeyIn(last.head, last.lines[b]) == k;
    }
  }

  /** Every row of the table is what the last line about its revision said. */
  lemma {:induction false} RowIsLastLine(runs: seq<CheckRun>, k: StatKey) returns (l: Line)
    requires k in History(runs)
    ensures LastLine(runs, k, l) && Holds(History(runs), k, l)
  {
    var n := |runs| - 1;
    var init, last := runs[..n], runs[n];
    WrittenKeys(History(init), last.head, last.lines);
    if k in RunKeys(last.head, last.lines) {
      var i :| 0 <= i < |last.lines| && KeyIn(last.head, last.lines[i]) == k;
      var b := LastOfKey(last.head, last.lines, i);
      WrittenLast(History(init), last.head, last.lines, b);
      l := Line(last.head, last.lines[b]);
      forall y: nat | SpeaksOf(runs, n, y, k)
        ensures y <= b
      {
        assert KeyIn(last.head, last.lines[y]) == k;
      }
      assert SpeaksLast(runs, n, b, k);
    } else {
      l := RowIsLastLine(init, k);
      WrittenElsewhere(History(init), last.head, last.lines, k);
      forall a: nat, b: nat | SpeaksOf(runs, a, b, k)
        ensures a < n
      {
        InRunKeys(runs, b, k);
      }
      StaysLast(runs, k, l);
    }
  }

  /** And every line has a row. */
  lemma {:induction false} LineHasRow(runs: seq<CheckRun>, a: nat, b: nat, k: StatKey)
    requires SpeaksOf(runs, a, b, k)
    ensures k in History(runs)
  {
    var n := |runs| - 1;
    var init, last := runs[..n], runs[n];
    WrittenKeys(History(init), last.head, last.lines);
    if a < n {
      assert init[a] == runs[a];
      LineHasRow(init, a, b, k);
    } else {
      assert KeyIn(last.head, last.lines[b]) == k;
    }
  }

  /** For each revision ever spoken of, the last line about it. */
  ghost predicate AreLastLines(runs: seq<CheckRun>, lines: map<StatKey, Line>)
  {
    && (forall a: nat, b: nat, k :: SpeaksOf(runs, a, b, k) ==> k in lines)
    && (forall k :: k in lines ==> LastLine(runs, k, lines[k]))
  }

  lemma LinesAreRows(runs: seq<CheckRun>, lines: map<StatKey, Line>)
    requires AreLastLines(runs, lines)
    ensures lines.Keys == History(runs).Keys
    ensures forall k :: k in lines ==> Holds(History(runs), k, lines[k])
  {
    forall k | k in lines
      ensures k in History(runs)
    {
      var a: nat, b: nat :| SpeaksLast(runs, a, b, k) && lines[k] == Line(runs[a].head, runs[a].lines[b]);
      LineHasRow(runs, a, b, k);
    }
    forall k | k in History(runs)
      ensures k in lines && Holds(History(runs), k, lines[k])
    {
      var l := RowIsLastLine(runs, k);
      var a: nat, b: nat :| SpeaksLast(runs, a, b, k) && l == Line(runs[a].head, runs[a].lines[b]);
      assert k in lines;
      var c: nat, d: nat :| SpeaksLast(runs, c, d, k) && lines[k] == Line(runs[c].head, runs[c].lines[d]);
      assert a == c && b == d;
    }
  }

  // ------------------------------------------------------------------------------
  // The figures
  // ------------------------------------------------------------------------------

  /** The query asks for the line: no repo named means every repo, and so for the storage. */
  predicate Asked(repos: set<string>, storage: string, k: StatKey, l: Line)
  {
    (repos == {} || l.head.repo in repos) && (storage == "" || k.storage == storage)
  }

  /** The line counts: it is asked for, and no line asked for has a higher revision of the snapshot on the storage. */
  predicate LineCounts(lines: map<StatKey, Line>, repos: set<string>, storage: string, k: StatKey)
    requires k in lines
  {
    && Asked(repos, storage, k, lines[k])
    && forall x :: x in lines && x.snap == k.snap && x.storage == k.storage && Asked(repos, storage, x, lines[x]) ==>
                     x.rev <= k.rev
  }

  function LinesFor(lines: map<StatKey, Line>, repos: set<string>, storage: string, d: Destination): map<StatKey, Line>
  {
    map k | k in lines && lines[k].head.dest == d && LineCounts(lines, repos, storage, k) :: lines[k]
  }

  function LinesOfShare(lines: map<StatKey, Line>, g: Share): map<StatKey, Line>
  {
    map k | k in lines && k.snap == g.snap && lines[k].head.repo == g.repo && lines[k].head.dest == g.dest
            && LineCounts(lines, {}, "", k) :: lines[k]
  }

  /** The figures are the sums of what the lines say, and their number. */
  ghost predicate AddsUp(lines: map<StatKey, Line>, a: Amounts)
  {
    && a.referenced == Total(map k | k in lines :: lines[k].row.total)
    && a.unique == Total(map k | k in lines :: lines[k].row.uniq)
    && a.revisions == |lines|
  }

  lemma {:induction false} OnesAddUp(m: map<StatKey, nat>)
    requires forall k :: k in m ==> m[k] == 1
    ensures Total(m) == |m|
    decreases |m|
  {
    if m != map[] {
      var k :| k in m;
      TotalRemove(m, k);
      OnesAddUp(m - {k});
      assert (m - {k}).Keys == m.Keys - {k};
    }
  }

  lemma GroupAddsUp<G>(t: Table, group: map<StatKey, G>, g: G, lines: map<StatKey, Line>)
    requires group.Keys == Latest(t)
    requires lines.Keys == set k | k in group && group[k] == g
    requires forall k :: k in lines ==> Holds(t, k, lines[k])
    ensures AddsUp(lines, AmountsOf(t, group, g))
  {
    hide Latest, Total;
    var totals, uniques := map k | k in lines :: lines[k].row.total, map k | k in lines :: lines[k].row.uniq;
    assert Fibre(Totals(t), group, g) == totals;
    assert Fibre(Uniques(t), group, g) == uniques;
    assert Fibre(Ones(t), group, g).Keys == lines.Keys;
    OnesAddUp(Fibre(Ones(t), group, g));
    assert |Fibre(Ones(t), group, g)| == |Fibre(Ones(t), group, g).Keys| == |lines.Keys| == |lines|;
  }

  /** What a summary says of one group, given the lines of the rows in it. */
  lemma GroupAnswered<G>(t: Table, group: map<StatKey, G>, out: map<G, Amounts>, g: G, lines: map<StatKey, Line>)
    requires group.Keys == Latest(t) && IsSummary(t, group, out)
    requires lines.Keys == set k | k in group && group[k] == g
    requires forall k :: k in lines ==> Holds(t, k, lines[k])
    ensures g in out <==> lines != map[]
    ensures g in out ==> AddsUp(lines, out[g])
  {
    hide Latest, AmountsOf, AddsUp, Holds;
    forall k | k in lines
      ensures g in out
    {
      assert group[k] in group.Values;
    }
    if g in out {
      var k :| k in group && group[k] == g;
      assert k in lines;
      GroupAddsUp(t, group, g, lines);
    } else {
      assert lines.Keys == {};
    }
  }

  lemma AskedIsSelected(t: Table, repos: set<string>, storage: string, lines: map<StatKey, Line>, k: StatKey)
    requires k in lines && Holds(t, k, lines[k])
    ensures k in Selected(t, repos, storage) <==> Asked(repos, storage, k, lines[k])
  {
  }

  lemma CountedAreLatest(t: Table, repos: set<string>, storage: string, lines: map<StatKey, Line>, k: StatKey)
    requires lines.Keys == t.Keys && forall x :: x in lines ==> Holds(t, x, lines[x])
    requires k in lines
    ensures k in Latest(Selected(t, repos, storage)) <==> LineCounts(lines, repos, storage, k)
  {
    var s := Selected(t, repos, storage);
    forall x | x in lines
      ensures x in s <==> Asked(repos, storage, x, lines[x])
    {
      AskedIsSelected(t, repos, storage, lines, x);
    }
    assert forall x :: x in s ==> x in lines;
    hide Selected, Asked, Holds;
  }

  lemma LinesForAreRows(t: Table, repos: set<string>, storage: string, lines: map<StatKey, Line>, d: Destination)
    requires lines.Keys == t.Keys && forall k :: k in lines ==> Holds(t, k, lines[k])
    ensures var s := Selected(t, repos, storage);
            && (LinesFor(lines, repos, storage, d).Keys == set k | k in DestOf(s) && DestOf(s)[k] == d)
            && forall k :: k in LinesFor(lines, repos, storage, d) ==> Holds(s, k, lines[k])
  {
    hide Latest, LineCounts;
    var s := Selected(t, repos, storage);
    assert forall k :: k in s ==> k in t && s[k] == t[k];
    forall k | k in lines
      ensures k in Latest(s) <==> LineCounts(lines, repos, storage, k)
    {
      CountedAreLatest(t, repos, storage, lines, k);
    }
    hide Selected;
    assert forall k :: k in DestOf(s) <==> k in Latest(s);
    assert forall k :: k in Latest(s) ==> k in s && k in lines;
  }

  lemma LinesOfShareAreRows(t: Table, lines: map<StatKey, Line>, g: Share)
    requires lines.Keys == t.Keys && forall k :: k in lines ==> Holds(t, k, lines[k])
    ensures LinesOfShare(lines, g).Keys == set k | k in ShareOf(t) && ShareOf(t)[k] == g
  {
    forall k | k in lines
      ensures k in Latest(t) <==> LineCounts(lines, {}, "", k)
    {
    }
    hide Latest, LineCounts;
    assert forall k :: k in ShareOf(t) <==> k in Latest(t);
  }

  /**
   What a query over any history of check runs answers: exactly the destinations of the lines
   that count, and for each the sums of the totals and of the unique bytes these lines give, and
   their number.
   */
  lemma DestinationsFromLines(runs: seq<CheckRun>, repos: set<string>, storage: string, out: map<Destination, Amounts>,
                              lines: map<StatKey, Line>, d: Destination)
    requires AreLastLines(runs, lines)
    requires var t := Selected(History(runs), repos, storage); IsSummary(t, DestOf(t), out)
    ensures d in out <==> LinesFor(lines, repos, storage, d) != map[]
    ensures d in out ==> AddsUp(LinesFor(lines, repos, storage, d), out[d])
  {
    hide AddsUp, Holds, History, AreLastLines, IsSummary, Latest, Selected, LineCounts;
    LinesAreRows(runs, lines);
    LinesForAreRows(History(runs), repos, storage, lines, d);
    var t := Selected(History(runs), repos, storage);
    GroupAnswered(t, DestOf(t), out, d, LinesFor(lines, repos, storage, d));
  }

  /** The same for the breakdown by snapshot and repo. */
  lemma SharesFromLines(runs: seq<CheckRun>, out: map<Share, Amounts>, lines: map<StatKey, Line>, g: Share)
    requires AreLastLines(runs, lines) && IsSummary(History(runs), ShareOf(History(runs)), out)
    ensures g in out <==> LinesOfShare(lines, g) != map[]
    ensures g in out ==> AddsUp(LinesOfShare(lines, g), out[g])
  {
    hide AddsUp, Holds, History, AreLastLines, IsSummary, Latest, LineCounts;
    LinesAreRows(runs, lines);
    LinesOfShareAreRows(History(runs), lines, g);
    GroupAnswered(History(runs), ShareOf(History(runs)), out, g, LinesOfShare(lines, g));
  }

  /** There are such lines for every history. */
  lemma LastLinesExist(runs: seq<CheckRun>) returns (lines: map<StatKey, Line>)
    ensures AreLastLines(runs, lines)
  {
    lines := LinesOfKeys(runs, History(runs).Keys);
    forall a: nat, b: nat, k | SpeaksOf(runs, a, b, k)
      ensures k in lines
    {
      LineHasRow(runs, a, b, k);
    }
  }

  lemma {:induction false} LinesOfKeys(runs: seq<CheckRun>, keys: set<StatKey>) returns (lines: map<StatKey, Line>)
    requires keys <= History(runs).Keys
    ensures lines.Keys == keys && forall k :: k in lines ==> LastLine(runs, k, lines[k])
    decreases keys
  {
    hide LastLine;
    lines := map[];
    if keys != {} {
      var k :| k in keys;
      var l := RowIsLastLine(runs, k);
      var rest := LinesOfKeys(runs, keys - {k});
      lines := rest[k := l];
    }
  }
}
