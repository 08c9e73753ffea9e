/** The newest revisions of each snapshot in a listing: what a sweep may list of it. */
module Newest {
  import opened Collections
  import opened Plans

  function OfSnap(snaps: seq<Snapshot>, id: string): seq<Snapshot>
  {
    if snaps == [] then []
    else OfSnap(snaps[..|snaps| - 1], id) + if snaps[|snaps| - 1].snap == id then [snaps[|snaps| - 1]] else []
  }

  /** How many of `snaps` belong to snapshot `id`: the rank the next candidate of `id` gets. */
  function CountSnap(snaps: seq<Snapshot>, id: string): nat
  {
    |OfSnap(snaps, id)|
  }

  lemma {:induction false} OfSnapMembers(snaps: seq<Snapshot>, id: string)
    ensures forall s :: s in OfSnap(snaps, id) <==> s in snaps && s.snap == id
    ensures Distinct(snaps) ==> Distinct(OfSnap(snaps, id))
  {
    if snaps != [] {
      OfSnapMembers(snaps[..|snaps| - 1], id);
      assert snaps == snaps[..|snaps| - 1] + [snaps[|snaps| - 1]];
    }
  }

  lemma {:induction false} OfSnapConcat(a: seq<Snapshot>, b: seq<Snapshot>, id: string)
    ensures OfSnap(a + b, id) == OfSnap(a, id) + OfSnap(b, id)
  {
    if b == [] {
      assert a + b == a;
    } else {
      var b' := b[..|b| - 1];
      OfSnapConcat(a, b', id);
      assert (a + b)[..|a + b| - 1] == a + b';
    }
  }

  predicate NewestFirst(xs: seq<Snapshot>)
  {
    forall i, j :: 0 <= i < j < |xs| ==> xs[i].rev > xs[j].rev
  }

  predicate Descending(xs: seq<Snapshot>)
  {
    forall i, j :: 0 <= i < j < |xs| ==> xs[i].rev >= xs[j].rev
  }

  /** Sorts revisions, newest first; repeated ones stay repeated. */
  method SortNewestFirst(xs: seq<Snapshot>) returns (sorted: seq<Snapshot>)
    ensures Descending(sorted) && multiset(sorted) == multiset(xs)
  {
    sorted := [];
    for i := 0 to |xs|
      invariant Descending(sorted) && multiset(sorted) == multiset(xs[..i])
    {
      assert xs[..i + 1] == xs[..i] + [xs[i]];
      sorted := InsertNewestFirst(sorted, xs[i]);
    }
    assert xs[..|xs|] == xs;
  }

  method InsertNewestFirst(sorted: seq<Snapshot>, x: Snapshot) returns (r: seq<Snapshot>)
    requires Descending(sorted)
    ensures Descending(r) && multiset(r) == multiset(sorted) + multiset{x}
  {
    var p := 0;
    while p < |sorted| && sorted[p].rev > x.rev
      invariant 0 <= p <= |sorted|
      invariant forall q :: 0 <= q < p ==> sorted[q].rev > x.rev
    {
      p := p + 1;
    }
    assert sorted == sorted[..p] + sorted[p..];
    r := sorted[..p] + [x] + sorted[p..];
  }

  /** `part` is a longest run of at most `keepN` newest revisions of the snapshot. */
  ghost predicate IsNewest(snaps: seq<Snapshot>, keepN: nat, id: string, part: seq<Snapshot>)
  {
    exists group :: multiset(group) == multiset(OfSnap(snaps, id)) && Descending(group) && part == FirstOf(group, keepN)
  }

  /** Of every snapshot, the newest revisions and no others. */
  ghost predicate NewestOf(snaps: seq<Snapshot>, keepN: nat, out: seq<Snapshot>)
  {
    forall id :: IsNewest(snaps, keepN, id, OfSnap(out, id))
  }

  ghost predicate NewestSoFar(snaps: seq<Snapshot>, keepN: nat, done: set<string>, out: seq<Snapshot>)
  {
    forall id :: if id in done then IsNewest(snaps, keepN, id, OfSnap(out, id)) else OfSnap(out, id) == []
  }

  lemma {:induction false} OfOwnSnap(xs: seq<Snapshot>, id: string)
    requires forall s :: s in xs ==> s.snap == id
    ensures OfSnap(xs, id) == xs
    ensures forall other :: other != id ==> OfSnap(xs, other) == []
  {
    if xs != [] {
      var init := xs[..|xs| - 1];
      assert xs == init + [xs[|xs| - 1]];
      OfOwnSnap(init, id);
    }
  }

  lemma SameMembers(a: seq<Snapshot>, b: seq<Snapshot>)
    requires multiset(a) == multiset(b)
    ensures forall s :: s in a <==> s in b
  {
    assert forall s :: s in a <==> s in multiset(a);
    assert forall s :: s in b <==> s in multiset(b);
  }

  lemma AppendNewest(snaps: seq<Snapshot>, keepN: nat, done: set<string>, out: seq<Snapshot>, group: seq<Snapshot>, id: string)
    requires NewestSoFar(snaps, keepN, done, out) && id !in done
    requires multiset(group) == multiset(OfSnap(snaps, id)) && Descending(group)
    ensures NewestSoFar(snaps, keepN, done + {id}, out + FirstOf(group, keepN))
  {
    var kept := FirstOf(group, keepN);
    SameMembers(group, OfSnap(snaps, id));
    OfSnapMembers(snaps, id);
    OfOwnSnap(kept, id);
    forall x: string
      ensures OfSnap(out + kept, x) == if x == id then kept else OfSnap(out, x)
    {
      OfSnapConcat(out, kept, x);
    }
    assert IsNewest(snaps, keepN, id, kept);
  }

  lemma NewestWhenAllDone(snaps: seq<Snapshot>, keepN: nat, done: set<string>, out: seq<Snapshot>)
    requires NewestSoFar(snaps, keepN, done, out) && done == set s | s in snaps :: s.snap
    ensures NewestOf(snaps, keepN, out)
  {
    forall id
      ensures IsNewest(snaps, keepN, id, OfSnap(out, id))
    {
      if id !in done {
        CountNone(snaps, id);
        assert multiset(OfSnap(out, id)) == multiset(OfSnap(snaps, id));
        assert OfSnap(out, id) == FirstOf(OfSnap(out, id), keepN);
      }
    }
  }

  lemma NoneNewest(snaps: seq<Snapshot>, keepN: nat)
    ensures NewestSoFar(snaps, keepN, {}, [])
  {
  }

  lemma {:induction false} OnceEach(xs: seq<Snapshot>)
    requires Distinct(xs)
    ensures forall s :: multiset(xs)[s] <= 1
  {
    if xs != [] {
      var init, last := xs[..|xs| - 1], xs[|xs| - 1];
      OnceEach(init);
      assert xs == init + [last];
      assert last !in init;
    }
  }

  /** Sorting what does not repeat makes the order strict. */
  lemma SortedStrictly(group: seq<Snapshot>, xs: seq<Snapshot>, id: string)
    requires multiset(group) == multiset(xs) && Descending(group) && Distinct(xs) && forall s :: s in xs ==> s.snap == id
    ensures NewestFirst(group)
  {
    OnceEach(xs);
    SameMembers(group, xs);
    forall i, j | 0 <= i < j < |group|
      ensures group[i].rev > group[j].rev
    {
      assert group[i] in group && group[j] in group;
      assert group == group[..i] + [group[i]] + group[i + 1..j] + [group[j]] + group[j + 1..];
      assert group[i] == group[j] ==> multiset(group)[group[i]] >= 2;
    }
  }

  lemma {:induction false} DistinctCardinality<T>(xs: seq<T>)
    requires Distinct(xs)
    ensures |set x | x in xs| == |xs|
  {
    if xs != [] {
      var init, last := xs[..|xs| - 1], xs[|xs| - 1];
      DistinctCardinality(init);
      assert xs == init + [last];
      assert (set x | x in xs) == (set x | x in init) + {last};
    }
  }

  /** In a newest-first group the number of newer revisions is the position. */
  lemma GroupRank(snaps: seq<Snapshot>, group: seq<Snapshot>, id: string, p: nat)
    requires NewestFirst(group) && p < |group|
    requires forall s :: s in group <==> s in snaps && s.snap == id
    ensures |NewerIn(snaps, group[p])| == p
  {
    DistinctCardinality(group[..p]);
    forall x | x in NewerIn(snaps, group[p])
      ensures x in group[..p]
    {
      var q :| 0 <= q < |group| && group[q] == x;
      assert group[..p][q] == x;
    }
    assert NewerIn(snaps, group[p]) == set x | x in group[..p];
  }

  /** The candidates of one listing: each snapshot's newest revisions, newest first within a snapshot. */
  ghost predicate CandidatesOf(snaps: seq<Snapshot>, keepN: nat, out: seq<Snapshot>)
  {
    && Distinct(out)
    && (forall s :: s in out <==> s in snaps && |NewerIn(snaps, s)| < keepN)
    && (forall i :: 0 <= i < |out| ==> CountSnap(out[..i], out[i].snap) == |NewerIn(snaps, out[i])|)
  }

  /** `out` holds the candidates of the snapshots in `done`. */
  ghost predicate CandidatesSoFar(snaps: seq<Snapshot>, keepN: nat, done: set<string>, out: seq<Snapshot>)
  {
    && Distinct(out)
    && (forall s :: s in out <==> s in snaps && s.snap in done && |NewerIn(snaps, s)| < keepN)
    && (forall i :: 0 <= i < |out| ==> CountSnap(out[..i], out[i].snap) == |NewerIn(snaps, out[i])|)
  }

  lemma {:induction false} CountNone(xs: seq<Snapshot>, id: string)
    requires forall s :: s in xs ==> s.snap != id
    ensures CountSnap(xs, id) == 0
  {
    OfSnapMembers(xs, id);
    if OfSnap(xs, id) != [] {
      assert OfSnap(xs, id)[0] in xs;
    }
  }

  lemma {:induction false} CountAll(xs: seq<Snapshot>, id: string)
    requires forall s :: s in xs ==> s.snap == id
    ensures CountSnap(xs, id) == |xs|
  {
    if xs != [] {
      CountAll(xs[..|xs| - 1], id);
    }
  }

  ghost predicate IsGroup(snaps: seq<Snapshot>, group: seq<Snapshot>, id: string)
  {
    && NewestFirst(group)
    && (forall s :: s in group <==> s in snaps && s.snap == id)
    && (forall p :: 0 <= p < |group| ==> |NewerIn(snaps, group[p])| == p)
  }

  lemma GroupRanks(snaps: seq<Snapshot>, group: seq<Snapshot>, id: string)
    requires NewestFirst(group)
    requires forall s :: s in group <==> s in snaps && s.snap == id
    ensures IsGroup(snaps, group, id)
  {
    forall p | 0 <= p < |group|
      ensures |NewerIn(snaps, group[p])| == p
    {
      GroupRank(snaps, group, id, p);
    }
  }

  function FirstOf(group: seq<Snapshot>, keepN: nat): seq<Snapshot>
  {
    if |group| > keepN then group[..keepN] else group
  }

  lemma KeptMembers(snaps: seq<Snapshot>, keepN: nat, group: seq<Snapshot>, id: string, s: Snapshot)
    requires IsGroup(snaps, group, id)
    ensures s in FirstOf(group, keepN) <==> s in snaps && s.snap == id && |NewerIn(snaps, s)| < keepN
  {
    hide NewerIn, NewestFirst;
    var kept := FirstOf(group, keepN);
    if s in kept {
      var p :| 0 <= p < |kept| && kept[p] == s;
      assert group[p] == s;
    }
    if s in snaps && s.snap == id && |NewerIn(snaps, s)| < keepN {
      var p :| 0 <= p < |group| && group[p] == s;
      assert kept[p] == s;
    }
  }

  lemma KeptRank(snaps: seq<Snapshot>, keepN: nat, out: seq<Snapshot>, group: seq<Snapshot>, id: string, i: nat)
    requires IsGroup(snaps, group, id)
    requires forall s :: s in out ==> s.snap != id
    requires |out| <= i < |out + FirstOf(group, keepN)|
    ensures var out' := out + FirstOf(group, keepN);
            CountSnap(out'[..i], out'[i].snap) == |NewerIn(snaps, out'[i])|
  {
    hide NewerIn, NewestFirst, CountSnap;
    var p := i - |out|;
    assert (out + FirstOf(group, keepN))[..i] == out + group[..p];
    assert (out + FirstOf(group, keepN))[i] == group[p];
    CountTogether(out, group[..p], id);
  }

  lemma CountTogether(a: seq<Snapshot>, b: seq<Snapshot>, id: string)
    requires forall s :: s in a ==> s.snap != id
    requires forall s :: s in b ==> s.snap == id
    ensures CountSnap(a + b, id) == |b|
  {
    OfSnapConcat(a, b, id);
    CountNone(a, id);
    CountAll(b, id);
  }

  lemma AppendGroup(snaps: seq<Snapshot>, keepN: nat, done: set<string>, out: seq<Snapshot>,
                    group: seq<Snapshot>, id: string)
    requires CandidatesSoFar(snaps, keepN, done, out) && id !in done
    requires IsGroup(snaps, group, id)
    ensures CandidatesSoFar(snaps, keepN, done + {id}, out + FirstOf(group, keepN))
  {
    hide NewerIn, CountSnap;
    var kept := FirstOf(group, keepN);
    var out' := out + kept;
    assert Distinct(out') by {
      hide CandidatesOf;
      assert forall s :: s in kept ==> s in group;
    }
    forall s
      ensures s in out' <==> s in snaps && s.snap in done + {id} && |NewerIn(snaps, s)| < keepN
    {
      hide IsGroup, FirstOf, Distinct;
      KeptMembers(snaps, keepN, group, id, s);
    }
    forall i | 0 <= i < |out'|
      ensures CountSnap(out'[..i], out'[i].snap) == |NewerIn(snaps, out'[i])|
    {
      hide IsGroup, FirstOf, Distinct;
      if i < |out| {
        assert out'[..i] == out[..i];
      } else {
        KeptRank(snaps, keepN, out, group, id, i);
      }
    }
  }

  /** The newest `keepN` revisions of every snapshot; the snapshots themselves come in any order. */
  method NewestRevisionsPerSnapshot(snaps: seq<Snapshot>, keepN: nat) returns (out: seq<Snapshot>)
    ensures NewestOf(snaps, keepN, out)
    ensures Distinct(snaps) ==> CandidatesOf(snaps, keepN, out)
  {
    hide CandidatesSoFar, CandidatesOf, NewestSoFar, NewestOf, NewerIn, OfSnap, Distinct;
    var bySnap := GroupBySnap(snaps);
    out := [];
    NoneYet(snaps, keepN);
    NoneNewest(snaps, keepN);
    var todo := bySnap.Keys;
    assert bySnap.Keys - todo == {};
    while todo != {}
      invariant todo <= bySnap.Keys
      invariant NewestSoFar(snaps, keepN, bySnap.Keys - todo, out)
      invariant Distinct(snaps) ==> CandidatesSoFar(snaps, keepN, bySnap.Keys - todo, out)
      decreases todo
    {
      var id :| id in todo;
      var list := SortNewestFirst(bySnap[id]);
      AppendNewest(snaps, keepN, bySnap.Keys - todo, out, list, id);
      if Distinct(snaps) {
        StrictGroup(snaps, list, id);
        AppendGroup(snaps, keepN, bySnap.Keys - todo, out, list, id);
      }
      assert bySnap.Keys - (todo - {id}) == bySnap.Keys - todo + {id};
      out := out + FirstOf(list, keepN);
      todo := todo - {id};
    }
    assert bySnap.Keys - todo == bySnap.Keys;
    NewestWhenAllDone(snaps, keepN, bySnap.Keys, out);
    if Distinct(snaps) {
      AllSnaps(snaps, keepN, bySnap.Keys, out);
    }
  }

  lemma StrictGroup(snaps: seq<Snapshot>, list: seq<Snapshot>, id: string)
    requires Distinct(snaps) && multiset(list) == multiset(OfSnap(snaps, id)) && Descending(list)
    ensures IsGroup(snaps, list, id)
  {
    hide NewerIn, IsGroup;
    OfSnapMembers(snaps, id);
    SameMembers(list, OfSnap(snaps, id));
    SortedStrictly(list, OfSnap(snaps, id), id);
    GroupRanks(snaps, list, id);
  }

  method GroupBySnap(snaps: seq<Snapshot>) returns (bySnap: map<string, seq<Snapshot>>)
    ensures bySnap.Keys == set s | s in snaps :: s.snap
    ensures forall id :: id in bySnap ==> bySnap[id] == OfSnap(snaps, id)
  {
    bySnap := map[];
    for i := 0 to |snaps|
      invariant bySnap.Keys == set s | s in snaps[..i] :: s.snap
      invariant forall id :: id in bySnap ==> bySnap[id] == OfSnap(snaps[..i], id)
    {
      var s := snaps[i];
      assert snaps[..i + 1][..i] == snaps[..i];
      assert snaps[..i + 1] == snaps[..i] + [s];
      if s.snap !in bySnap {
        CountNone(snaps[..i], s.snap);
      }
      bySnap := bySnap[s.snap := (if s.snap in bySnap then bySnap[s.snap] else []) + [s]];
    }
    assert snaps[..|snaps|] == snaps;
  }

  lemma NoneYet(snaps: seq<Snapshot>, keepN: nat)
    ensures CandidatesSoFar(snaps, keepN, {}, [])
  {
  }

  lemma AllSnaps(snaps: seq<Snapshot>, keepN: nat, done: set<string>, out: seq<Snapshot>)
    requires CandidatesSoFar(snaps, keepN, done, out)
    requires done == set s | s in snaps :: s.snap
    ensures CandidatesOf(snaps, keepN, out)
  {
  }
}
