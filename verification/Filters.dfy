/** Rendering the merged filter file, and what a reader that takes the first match makes of it. */
module Filters {
  import opened Options
  import opened Text

  datatype Rule = Rule(position: int, action: string, pattern: string)

  datatype FilterSet = FilterSet(scope: string, scopeValue: string, name: string, rules: seq<Rule>)

  /** What is rendered for one repo: its own rules and the pulled sets. */
  datatype Doc = Doc(repoRules: seq<Rule>, sets: seq<FilterSet>)

  // ------------------------------------------------------------------------------
  // Anchoring
  // ------------------------------------------------------------------------------

  function TrimSlash(root: string): string
  {
    if root != "" && root[|root| - 1] == '/' then root[..|root| - 1] else root
  }

  /** The repo-relative form of a stored pattern, or nothing when it cannot apply to the repo. */
  function AnchorPattern(pattern: string, matchRoot: string): Option<string>
  {
    var root := TrimSlash(matchRoot);
    if pattern == "" then None
    else if pattern[0] != '/' then Some(pattern)
    else if root == "" || root == "/" then Some(pattern[1..])
    else if pattern == root || pattern == root + "/" then None
    else if root + "/" <= pattern && pattern[|root| + 1..] != "" then Some(pattern[|root| + 1..])
    else None
  }

  /** An absolute rule is emitted exactly when it is the root, a slash and a nonempty rest, and the rest is what is emitted. */
  lemma AnchorIsExact(pattern: string, matchRoot: string, rest: string)
    requires pattern != "" && pattern[0] == '/'
    requires TrimSlash(matchRoot) != "" && TrimSlash(matchRoot) != "/"
    ensures AnchorPattern(pattern, matchRoot) == Some(rest) <==>
            pattern == TrimSlash(matchRoot) + "/" + rest && rest != ""
  {
    var root := TrimSlash(matchRoot);
    if pattern == root + "/" + rest && rest != "" {
      assert root + "/" <= pattern;
      assert pattern[|root| + 1..] == rest;
    }
    if AnchorPattern(pattern, matchRoot) == Some(rest) {
      assert pattern == (root + "/") + pattern[|root| + 1..];
    }
  }

  /**
   An empty pattern would match everything. It is never emitted, except for the rule "/" in a
   repo rooted at "/": there the check that drops a rule naming the root itself is not reached.
   */
  lemma EmptyPatternExactly(pattern: string, matchRoot: string)
    ensures AnchorPattern(pattern, matchRoot) == Some("") <==>
            pattern == "/" && (TrimSlash(matchRoot) == "" || TrimSlash(matchRoot) == "/")
  {
    if AnchorPattern(pattern, matchRoot) == Some("") {
      assert pattern == [pattern[0]] + pattern[1..];
    }
    assert "/"[1..] == "";
  }

  // ------------------------------------------------------------------------------
  // Stable sorting
  // ------------------------------------------------------------------------------

  /** Lexicographic order on strings. */
  predicate StrLess(a: string, b: string)
  {
    if b == "" then false
    else if a == "" then true
    else a[0] < b[0] || (a[0] == b[0] && StrLess(a[1..], b[1..]))
  }

  lemma {:induction false} StrLessTotal(a: string, b: string)
    ensures StrLess(a, b) || a == b || StrLess(b, a)
    ensures !(StrLess(a, b) && StrLess(b, a)) && !StrLess(a, a)
  {
    if a != "" && b != "" {
      StrLessTotal(a[1..], b[1..]);
      assert a == [a[0]] + a[1..] && b == [b[0]] + b[1..];
    }
    if a != "" {
      StrLessTotal(a[1..], a[1..]);
    }
  }

  lemma {:induction false} StrLessTransitive(a: string, b: string, c: string)
    requires StrLess(a, b) && StrLess(b, c)
    ensures StrLess(a, c)
  {
    if a != "" {
      if a[0] == b[0] == c[0] {
        StrLessTransitive(a[1..], b[1..], c[1..]);
      }
    }
  }

  /** What a sort compares: a number, then a name. */
  datatype SortKey = SortKey(num: int, name: string)

  predicate KeyLess(a: SortKey, b: SortKey)
  {
    a.num < b.num || (a.num == b.num && StrLess(a.name, b.name))
  }

  /** Equal keys keep the order they came in. */
  predicate StablyBefore(keys: seq<SortKey>, i: nat, j: nat)
    requires i < |keys| && j < |keys|
  {
    KeyLess(keys[i], keys[j]) || (keys[i] == keys[j] && i < j)
  }

  lemma KeyLessFacts(a: SortKey, b: SortKey)
    ensures KeyLess(a, b) || a == b || KeyLess(b, a)
    ensures !(KeyLess(a, b) && KeyLess(b, a)) && !KeyLess(a, a)
  {
    StrLessTotal(a.name, b.name);
  }

  lemma KeyLessTransitive(a: SortKey, b: SortKey, c: SortKey)
    requires KeyLess(a, b) && KeyLess(b, c)
    ensures KeyLess(a, c)
  {
    if a.num == b.num == c.num {
      StrLessTransitive(a.name, b.name, c.name);
    }
  }

  /** `order` lists the positions of `keys` below `n` in stable order. */
  ghost predicate IsStableOrder(keys: seq<SortKey>, n: nat, order: seq<nat>)
    requires n <= |keys|
  {
    && (forall i :: 0 <= i < |order| ==> order[i] < n)
    && (forall k :: 0 <= k < n ==> k in order)
    && (forall i, j :: 0 <= i < j < |order| ==> StablyBefore(keys, order[i], order[j]))
  }

  /** Inserts position `k`, later than all before it, behind every key that is not greater. */
  method InsertStably(keys: seq<SortKey>, order: seq<nat>, k: nat) returns (r: seq<nat>)
    requires k < |keys| && IsStableOrder(keys, k, order)
    ensures IsStableOrder(keys, k + 1, r)
  {
    var p := |order|;
    while p > 0 && KeyLess(keys[k], keys[order[p - 1]])
      invariant 0 <= p <= |order|
      invariant forall i :: p <= i < |order| ==> KeyLess(keys[k], keys[order[i]])
    {
      p := p - 1;
    }
    r := InsertAt(order, p, k);
    InsertedStably(keys, order, k, p, r);
  }

  /** Everything kept in front of the new position stably precedes it. */
  lemma FrontPrecedes(keys: seq<SortKey>, order: seq<nat>, k: nat, p: nat, i: nat)
    requires k < |keys| && IsStableOrder(keys, k, order) && i < p <= |order|
    requires !KeyLess(keys[k], keys[order[p - 1]])
    ensures StablyBefore(keys, order[i], k)
  {
    hide KeyLess;
    var last := order[p - 1];
    KeyLessFacts(keys[last], keys[k]);
    if i < p - 1 {
      assert StablyBefore(keys, order[i], last);
      if KeyLess(keys[order[i]], keys[last]) && KeyLess(keys[last], keys[k]) {
        KeyLessTransitive(keys[order[i]], keys[last], keys[k]);
      }
    }
  }

  function InsertAt(order: seq<nat>, p: nat, k: nat): seq<nat>
    requires p <= |order|
  {
    order[..p] + [k] + order[p..]
  }

  lemma InsertAtMembers(order: seq<nat>, p: nat, k: nat)
    requires p <= |order|
    ensures forall x :: x in InsertAt(order, p, k) <==> x in order || x == k
  {
    assert order == order[..p] + order[p..];
  }

  lemma InsertAtPair(order: seq<nat>, p: nat, k: nat, i: nat, j: nat)
    requires p <= |order| && i < j < |order| + 1
    ensures var r := InsertAt(order, p, k);
            || (j == p && r[i] == order[i] && r[j] == k)
            || (i == p && r[i] == k && r[j] == order[j - 1])
            || exists a, b :: 0 <= a < b < |order| && r[i] == order[a] && r[j] == order[b]
  {
    var r := InsertAt(order, p, k);
    if i != p && j != p {
      var a, b := if i < p then i else i - 1, if j < p then j else j - 1;
      assert r[i] == order[a] && r[j] == order[b];
    }
  }

  lemma InsertedStably(keys: seq<SortKey>, order: seq<nat>, k: nat, p: nat, r: seq<nat>)
    requires k < |keys| && IsStableOrder(keys, k, order) && p <= |order|
    requires p > 0 ==> !KeyLess(keys[k], keys[order[p - 1]])
    requires forall i :: p <= i < |order| ==> KeyLess(keys[k], keys[order[i]])
    requires r == InsertAt(order, p, k)
    ensures IsStableOrder(keys, k + 1, r)
  {
    hide KeyLess, InsertAt;
    InsertAtMembers(order, p, k);
    forall i | 0 <= i < |r|
      ensures r[i] < k + 1
    {
      assert r[i] in r;
    }
    forall i, j | 0 <= i < j < |r|
      ensures StablyBefore(keys, r[i], r[j])
    {
      InsertAtLength(order, p, k);
      InsertAtPair(order, p, k, i, j);
      if j == p && r[i] == order[i] && r[j] == k {
        FrontPrecedes(keys, order, k, p, i);
      }
    }
  }

  lemma InsertAtLength(order: seq<nat>, p: nat, k: nat)
    requires p <= |order|
    ensures |InsertAt(order, p, k)| == |order| + 1
  {
  }

  /** `slices.SortStableFunc`, as the order in which the elements end up. */
  method StableOrder(keys: seq<SortKey>) returns (order: seq<nat>)
    ensures IsStableOrder(keys, |keys|, order)
  {
    order := [];
    for k := 0 to |keys|
      invariant IsStableOrder(keys, k, order)
    {
      order := InsertStably(keys, order, k);
    }
  }

  // ------------------------------------------------------------------------------
  // Directives
  // ------------------------------------------------------------------------------

  datatype Directive = Directive(includes: bool, pattern: string)

  function DirectiveOf(line: string): seq<Directive>
  {
    if line != "" && (line[0] == '+' || line[0] == '-') then [Directive(line[0] == '+', line[1..])] else []
  }

  function Directives(lines: seq<string>): seq<Directive>
  {
    if lines == [] then [] else Directives(lines[..|lines| - 1]) + DirectiveOf(lines[|lines| - 1])
  }

  lemma {:induction false} DirectivesConcat(a: seq<string>, b: seq<string>)
    ensures Directives(a + b) == Directives(a) + Directives(b)
  {
    hide DirectiveOf;
    if b == [] {
      assert a + b == a;
    } else {
      DirectivesConcat(a, b[..|b| - 1]);
      assert (a + b)[..|a + b| - 1] == a + b[..|b| - 1];
    }
  }

  /** The decision of a reader that stops at the first pattern that matches. */
  function FirstMatch(ds: seq<Directive>, matches: string -> bool): Option<bool>
  {
    if ds == [] then None
    else if matches(ds[0].pattern) then Some(ds[0].includes)
    else FirstMatch(ds[1..], matches)
  }

  /** What a rule contributes to the file: its anchored pattern, or nothing. */
  function Emit(r: Rule, root: string): seq<Directive>
  {
    match AnchorPattern(r.pattern, root)
    case None => []
    case Some(p) => [Directive(r.action == "include", p)]
  }

  function RuleLine(r: Rule, root: string): string
  {
    match AnchorPattern(r.pattern, root)
    case None => "# (not in this repo) " + r.pattern
    case Some(p) => (if r.action == "include" then "+" else "-") + p
  }

  lemma RuleLineReadsBack(r: Rule, root: string)
    requires OneLine(r.pattern)
    ensures OneLine(RuleLine(r, root)) && DirectiveOf(RuleLine(r, root)) == Emit(r, root)
  {
    match AnchorPattern(r.pattern, root)
    case None =>
    case Some(p) =>
      assert forall c :: c in p ==> c in r.pattern;
      assert RuleLine(r, root)[1..] == p;
  }

  // ------------------------------------------------------------------------------
  // Precedence
  // ------------------------------------------------------------------------------

  function ScopeOrder(scope: string): int
  {
    if scope == "site" then 0 else if scope == "org" then 1 else 2
  }

  /** Where a rule stands: tier -1 is the repo's own, then the scopes, names, sets and positions. */
  datatype Place = Place(tier: int, name: string, set_: nat, position: int, index: nat)

  predicate Before(p: Place, q: Place)
  {
    || p.tier < q.tier
    || (p.tier == q.tier && StrLess(p.name, q.name))
    || (p.tier == q.tier && p.name == q.name && p.set_ < q.set_)
    || (p.tier == q.tier && p.name == q.name && p.set_ == q.set_ && p.position < q.position)
    || (p.tier == q.tier && p.name == q.name && p.set_ == q.set_ && p.position == q.position && p.index < q.index)
  }

  /** The rule of `rules` that stands at `p` in a set with the given tier, name and number. */
  predicate Stands(rules: seq<Rule>, tier: int, name: string, n: nat, p: Place)
  {
    && p.index < |rules|
    && p == Place(tier, name, n, rules[p.index].position, p.index)
  }

  predicate InSet(doc: Doc, n: nat, p: Place)
    requires n < |doc.sets|
  {
    var s := doc.sets[n];
    s.scope != "repo" && Stands(s.rules, ScopeOrder(s.scope), s.name, n, p)
  }

  predicate HasPlace(doc: Doc, p: Place)
  {
    || Stands(doc.repoRules, -1, "", 0, p)
    || (p.set_ < |doc.sets| && InSet(doc, p.set_, p))
  }

  function RuleAt(doc: Doc, p: Place): Rule
    requires HasPlace(doc, p)
  {
    if p.tier == -1 then doc.repoRules[p.index] else doc.sets[p.set_].rules[p.index]
  }

  predicate Increasing(places: seq<Place>)
  {
    forall i, j :: 0 <= i < j < |places| ==> Before(places[i], places[j])
  }

  function EmittedAt(doc: Doc, root: string, places: seq<Place>): seq<Directive>
    requires forall p :: p in places ==> HasPlace(doc, p)
  {
    if places == [] then [] else Emit(RuleAt(doc, places[0]), root) + EmittedAt(doc, root, places[1..])
  }

  /** The rule at `p` applies to the repo and its anchored pattern matches. */
  predicate MatchesAt(doc: Doc, root: string, matches: string -> bool, p: Place)
    requires HasPlace(doc, p)
  {
    var a := AnchorPattern(RuleAt(doc, p).pattern, root);
    a.Some? && matches(a.value)
  }

  /** The decision `d` is that of the first matching rule in precedence order, if any matches. */
  ghost predicate DecidesFirst(doc: Doc, root: string, matches: string -> bool, places: seq<Place>, d: Option<bool>)
    requires forall p :: p in places ==> HasPlace(doc, p)
  {
    && (d.None? <==> forall p :: p in places ==> !MatchesAt(doc, root, matches, p))
    && (d.Some? ==> exists p :: p in places && MatchesAt(doc, root, matches, p)
                                && d.value == (RuleAt(doc, p).action == "include")
                                && forall q :: q in places && MatchesAt(doc, root, matches, q) ==> q == p || Before(p, q))
  }

  /** Taking the first match of what an increasing list of rules emits is deciding by precedence. */
  lemma {:induction false} FirstMatchDecides(doc: Doc, root: string, matches: string -> bool, places: seq<Place>)
    requires forall p :: p in places ==> HasPlace(doc, p)
    requires Increasing(places)
    ensures DecidesFirst(doc, root, matches, places, FirstMatch(EmittedAt(doc, root, places), matches))
  {
    if places != [] {
      var p, rest := places[0], places[1..];
      FirstMatchDecides(doc, root, matches, rest);
      assert places == [p] + rest;
      var tail := EmittedAt(doc, root, rest);
      if MatchesAt(doc, root, matches, p) {
        assert EmittedAt(doc, root, places)[0] == Emit(RuleAt(doc, p), root)[0];
      } else {
        SkipUnmatched(Emit(RuleAt(doc, p), root), tail, matches);
      }
    }
  }

  lemma SkipUnmatched(first: seq<Directive>, rest: seq<Directive>, matches: string -> bool)
    requires |first| <= 1 && forall d :: d in first ==> !matches(d.pattern)
    ensures FirstMatch(first + rest, matches) == FirstMatch(rest, matches)
  {
    if first == [] {
      assert first + rest == rest;
    } else {
      assert (first + rest)[1..] == rest;
    }
  }

  // ------------------------------------------------------------------------------
  // Rendering
  // ------------------------------------------------------------------------------

  lemma {:induction false} EmittedConcat(doc: Doc, root: string, a: seq<Place>, b: seq<Place>)
    requires forall p :: p in a + b ==> HasPlace(doc, p)
    requires forall p :: p in a ==> HasPlace(doc, p)
    requires forall p :: p in b ==> HasPlace(doc, p)
    ensures EmittedAt(doc, root, a + b) == EmittedAt(doc, root, a) + EmittedAt(doc, root, b)
  {
    if a == [] {
      assert a + b == b;
    } else {
      EmittedConcat(doc, root, a[1..], b);
      assert (a + b)[1..] == a[1..] + b;
    }
  }

  /** `lines` reads back as the rules at `places`, which all exist. */
  ghost predicate Renders(doc: Doc, root: string, lines: seq<string>, places: seq<Place>)
  {
    && AllOneLine(lines)
    && (forall p :: p in places ==> HasPlace(doc, p))
    && Directives(lines) == EmittedAt(doc, root, places)
  }

  lemma RendersConcat(doc: Doc, root: string, la: seq<string>, pa: seq<Place>, lb: seq<string>, pb: seq<Place>)
    requires Renders(doc, root, la, pa) && Renders(doc, root, lb, pb)
    ensures Renders(doc, root, la + lb, pa + pb)
  {
    DirectivesConcat(la, lb);
    EmittedConcat(doc, root, pa, pb);
  }

  /** A line that is neither an include nor an exclude says nothing. */
  lemma RendersComment(doc: Doc, root: string, line: string)
    requires OneLine(line) && (line == "" || line[0] == '#')
    ensures Renders(doc, root, [line], [])
  {
    assert Directives([line][..0]) == [];
  }

  lemma RendersRule(doc: Doc, root: string, p: Place)
    requires HasPlace(doc, p) && OneLine(RuleAt(doc, p).pattern)
    ensures Renders(doc, root, [RuleLine(RuleAt(doc, p), root)], [p])
  {
    var line := RuleLine(RuleAt(doc, p), root);
    RuleLineReadsBack(RuleAt(doc, p), root);
    assert Directives([line][..0]) == [];
    assert Directives([line]) == DirectiveOf(line);
    assert EmittedAt(doc, root, [p][1..]) == [];
  }

  function RuleKeys(rules: seq<Rule>): (keys: seq<SortKey>)
    ensures |keys| == |rules|
  {
    seq(|rules|, i requires 0 <= i < |rules| => SortKey(rules[i].position, ""))
  }

  function SetKeys(sets: seq<FilterSet>): (keys: seq<SortKey>)
    ensures |keys| == |sets|
  {
    seq(|sets|, i requires 0 <= i < |sets| => SortKey(ScopeOrder(sets[i].scope), sets[i].name))
  }

  /** The rules of one set stand in the document under the given tier, name and number. */
  ghost predicate SetOf(doc: Doc, rules: seq<Rule>, tier: int, name: string, n: nat)
  {
    forall p :: Stands(rules, tier, name, n, p) ==> HasPlace(doc, p) && RuleAt(doc, p) == rules[p.index]
  }

  predicate OneLineRules(rules: seq<Rule>)
  {
    forall r :: r in rules ==> OneLine(r.pattern)
  }

  /** The text a builder holds, as lines, and the rules it renders so far. */
  ghost predicate Built(doc: Doc, root: string, text: string, lines: seq<string>, places: seq<Place>)
  {
    text == Unlines(lines) && Renders(doc, root, lines, places)
  }

  method WriteLine(text: string, line: string, ghost doc: Doc, ghost root: string,
                   ghost lines: seq<string>, ghost places: seq<Place>, ghost added: seq<Place>)
    returns (text': string, ghost lines': seq<string>)
    requires Built(doc, root, text, lines, places) && Renders(doc, root, [line], added)
    ensures Built(doc, root, text', lines', places + added)
  {
    hide Renders;
    text' := text + line + "\n";
    lines' := lines + [line];
    RendersConcat(doc, root, lines, places, [line], added);
    UnlinesConcat(lines, [line]);
    assert Unlines([line]) == line + "\n" by {
      assert Unlines([line][1..]) == "";
    }
  }

  /** Writes the rules of one set, sorted stably by position. */
  method WriteRules(text: string, rules: seq<Rule>, root: string, ghost doc: Doc, ghost tier: int, ghost name: string,
                    ghost n: nat, ghost lines: seq<string>, ghost places: seq<Place>)
    returns (text': string, ghost lines': seq<string>, ghost added: seq<Place>)
    requires Built(doc, root, text, lines, places) && OneLineRules(rules) && SetOf(doc, rules, tier, name, n)
    ensures Built(doc, root, text', lines', places + added)
    ensures Increasing(added) && forall p :: p in added <==> Stands(rules, tier, name, n, p)
  {
    hide Built, Renders, HasPlace, StrLess, OneLine;
    var order := StableOrder(RuleKeys(rules));
    text', lines', added := text, lines, [];
    assert places + [] == places;
    for i := 0 to |order|
      invariant |added| == i
      invariant forall j :: 0 <= j < i ==> added[j] == Place(tier, name, n, rules[order[j]].position, order[j])
      invariant Built(doc, root, text', lines', places + added)
    {
      var r := rules[order[i]];
      ghost var p := Place(tier, name, n, r.position, order[i]);
      assert Stands(rules, tier, name, n, p);
      RendersRule(doc, root, p);
      text', lines' := WriteLine(text', RuleLine(r, root), doc, root, lines', places + added, [p]);
      assert places + added + [p] == places + (added + [p]);
      added := added + [p];
    }
    StandsInOrder(rules, tier, name, n, order, added);
  }

  lemma StandsInOrder(rules: seq<Rule>, tier: int, name: string, n: nat, order: seq<nat>, added: seq<Place>)
    requires IsStableOrder(RuleKeys(rules), |rules|, order) && |added| == |order|
    requires forall j :: 0 <= j < |order| ==> added[j] == Place(tier, name, n, rules[order[j]].position, order[j])
    ensures Increasing(added) && forall p :: p in added <==> Stands(rules, tier, name, n, p)
  {
    forall i, j | 0 <= i < j < |added|
      ensures Before(added[i], added[j])
    {
      assert StablyBefore(RuleKeys(rules), order[i], order[j]);
    }
    forall p | Stands(rules, tier, name, n, p)
      ensures p in added
    {
      assert p.index in order;
      var j :| 0 <= j < |order| && order[j] == p.index;
      assert added[j] == p;
    }
  }

  function ToUpper(s: string): string
  {
    seq(|s|, i requires 0 <= i < |s| => if 'a' <= s[i] <= 'z' then ((s[i] as int) - 32) as char else s[i])
  }

  function ScopeValueDisplay(v: string): string
  {
    if v == "" then "" else " (" + v + ")"
  }

  function SetTitle(s: FilterSet): string
  {
    "# === " + ToUpper(s.scope) + ScopeValueDisplay(s.scopeValue) + ": " + s.name + " ==="
  }

  /** Rules, names, scopes and their values are single lines. */
  predicate OneLineDoc(doc: Doc)
  {
    && OneLineRules(doc.repoRules)
    && forall s :: s in doc.sets ==> OneLine(s.scope) && OneLine(s.scopeValue) && OneLine(s.name) && OneLineRules(s.rules)
  }

  lemma TitleIsComment(doc: Doc, root: string, s: FilterSet)
    requires OneLine(s.scope) && OneLine(s.scopeValue) && OneLine(s.name)
    ensures Renders(doc, root, [SetTitle(s)], [])
  {
    assert OneLine(ToUpper(s.scope));
    assert SetTitle(s)[0] == '#';
    RendersComment(doc, root, SetTitle(s));
  }

  /** The places of the repo's own rules and of the first `n` sets in order. */
  ghost predicate PlacedSoFar(doc: Doc, order: seq<nat>, n: nat, places: seq<Place>)
    requires n <= |order| && forall k :: 0 <= k < |order| ==> order[k] < |doc.sets|
  {
    && Increasing(places)
    && forall p :: p in places <==>
                     Stands(doc.repoRules, -1, "", 0, p) || exists k :: 0 <= k < n && InSet(doc, order[k], p)
  }

  lemma SetFollows(doc: Doc, order: seq<nat>, n: nat, p: Place, q: Place)
    requires IsStableOrder(SetKeys(doc.sets), |doc.sets|, order) && n < |order|
    requires Stands(doc.repoRules, -1, "", 0, p) || exists k :: 0 <= k < n && InSet(doc, order[k], p)
    requires InSet(doc, order[n], q)
    ensures Before(p, q)
  {
    if !Stands(doc.repoRules, -1, "", 0, p) {
      var k :| 0 <= k < n && InSet(doc, order[k], p);
      assert StablyBefore(SetKeys(doc.sets), order[k], order[n]);
    }
  }

  lemma SetAppended(doc: Doc, order: seq<nat>, n: nat, places: seq<Place>, added: seq<Place>)
    requires IsStableOrder(SetKeys(doc.sets), |doc.sets|, order) && n < |order|
    requires PlacedSoFar(doc, order, n, places)
    requires Increasing(added) && forall p :: p in added <==> InSet(doc, order[n], p)
    ensures PlacedSoFar(doc, order, n + 1, places + added)
  {
    hide InSet, Stands, Before;
    var all := places + added;
    forall i, j | 0 <= i < j < |all|
      ensures Before(all[i], all[j])
    {
      if i < |places| <= j {
        assert all[i] in places && all[j] in added;
        SetFollows(doc, order, n, all[i], all[j]);
      }
    }
    forall p
      ensures p in all <==> Stands(doc.repoRules, -1, "", 0, p) || exists k :: 0 <= k < n + 1 && InSet(doc, order[k], p)
    {
      assert p in all <==> p in places || p in added;
    }
  }

  lemma SetIsPlaced(doc: Doc, n: nat)
    requires n < |doc.sets| && doc.sets[n].scope != "repo"
    ensures var s := doc.sets[n]; SetOf(doc, s.rules, ScopeOrder(s.scope), s.name, n)
    ensures var s := doc.sets[n];
            forall p :: Stands(s.rules, ScopeOrder(s.scope), s.name, n, p) <==> InSet(doc, n, p)
  {
  }

  lemma RepoIsPlaced(doc: Doc)
    ensures SetOf(doc, doc.repoRules, -1, "", 0)
  {
  }

  lemma AllPlaced(doc: Doc, order: seq<nat>, places: seq<Place>)
    requires IsStableOrder(SetKeys(doc.sets), |doc.sets|, order)
    requires PlacedSoFar(doc, order, |order|, places)
    ensures Increasing(places) && forall p :: p in places <==> HasPlace(doc, p)
  {
    forall p
      ensures p in places <==> HasPlace(doc, p)
    {
      if p.set_ < |doc.sets| && InSet(doc, p.set_, p) {
        assert p.set_ in order;
        var k :| 0 <= k < |order| && order[k] == p.set_;
      }
    }
  }

  /** Renders the sets, most specific scope first, then by name; the repo's own sets are managed elsewhere. */
  method WriteSets(text: string, doc: Doc, root: string, ghost lines: seq<string>, ghost places0: seq<Place>)
    returns (text': string, ghost lines': seq<string>, ghost places: seq<Place>)
    requires Built(doc, root, text, lines, places0) && OneLineDoc(doc)
    requires Increasing(places0) && forall p :: p in places0 <==> Stands(doc.repoRules, -1, "", 0, p)
    ensures Built(doc, root, text', lines', places)
    ensures Increasing(places) && forall p :: p in places <==> HasPlace(doc, p)
  {
    hide Built, Renders, InSet, Stands, StrLess, OneLine, Increasing, SetOf, OneLineRules;
    var order := StableOrder(SetKeys(doc.sets));
    text', lines', places := text, lines, places0;
    var i := 0;
    while i < |order|
      invariant 0 <= i <= |order|
      invariant PlacedSoFar(doc, order, i, places)
      invariant Built(doc, root, text', lines', places)
    {
      var s := doc.sets[order[i]];
      if s.scope == "repo" {
        SkipRepoSet(doc, order, i, places);
      } else {
        assert s in doc.sets;
        TitleIsComment(doc, root, s);
        text', lines' := WriteLine(text', SetTitle(s), doc, root, lines', places, []);
        assert places + [] == places;
        SetIsPlaced(doc, order[i]);
        ghost var added;
        text', lines', added := WriteRules(text', s.rules, root, doc, ScopeOrder(s.scope), s.name, order[i], lines', places);
        SetAppended(doc, order, i, places, added);
        places := places + added;
        BlankIsComment(doc, root);
        text', lines' := WriteLine(text', "", doc, root, lines', places, []);
        assert places + [] == places;
      }
      i := i + 1;
    }
    AllPlaced(doc, order, places);
  }

  lemma BlankIsComment(doc: Doc, root: string)
    ensures Renders(doc, root, [""], [])
  {
    RendersComment(doc, root, "");
  }

  lemma SkipRepoSet(doc: Doc, order: seq<nat>, n: nat, places: seq<Place>)
    requires n < |order| && (forall k :: 0 <= k < |order| ==> order[k] < |doc.sets|)
    requires doc.sets[order[n]].scope == "repo" && PlacedSoFar(doc, order, n, places)
    ensures PlacedSoFar(doc, order, n + 1, places)
  {
    hide Stands, Increasing;
  }

  const HEADER_1 := "# AUTOGENERATED by duplicacy-agent-api" + " from controller filter sets"
  const HEADER_2 := "# DO NOT EDIT BY HAND - changes" + " will be overwritten on next sync"
  const REPO_TITLE := "# === REPO: per-repo overrides ==="

  /** The first lines of every rendered file. */
  function HeaderLines(rendered: string, fetched: string): seq<string>
  {
    [HEADER_1, HEADER_2, "# Last rendered: " + rendered, "# Source-of-truth fetched: " + fetched, ""]
  }

  lemma HeaderIsComments(rendered: string, fetched: string, i: nat)
    requires OneLine(rendered) && OneLine(fetched) && i < |HeaderLines(rendered, fetched)|
    ensures var line := HeaderLines(rendered, fetched)[i]; OneLine(line) && (line == "" || line[0] == '#')
  {
    hide OneLine;
    FirstHeaderLine();
    SecondHeaderLine();
    Stamped("# Last rendered: ", rendered);
    Stamped("# Source-of-truth fetched: ", fetched);
    NoLine();
  }

  lemma NoLine()
    ensures OneLine("")
  {
  }

  lemma FirstHeaderLine()
    ensures OneLine(HEADER_1)
  {
    assert OneLine("# AUTOGENERATED by duplicacy-agent-api");
    assert OneLine(" from controller filter sets");
  }

  lemma SecondHeaderLine()
    ensures OneLine(HEADER_2)
  {
    assert OneLine("# DO NOT EDIT BY HAND - changes");
    assert OneLine(" will be overwritten on next sync");
  }

  lemma Stamped(title: string, stamp: string)
    requires '\n' !in title && OneLine(stamp)
    ensures OneLine(title + stamp)
  {
  }

  method WriteHeader(doc: Doc, root: string, rendered: string, fetched: string)
    returns (text: string, ghost lines: seq<string>)
    requires OneLine(rendered) && OneLine(fetched)
    ensures Built(doc, root, text, lines, [])
  {
    var header := HeaderLines(rendered, fetched);
    ghost var none: seq<Place> := [];
    text, lines := "", [];
    for i := 0 to |header|
      invariant Built(doc, root, text, lines, [])
    {
      HeaderIsComments(rendered, fetched, i);
      RendersComment(doc, root, header[i]);
      text, lines := WriteLine(text, header[i], doc, root, lines, none, none);
      assert none + none == none;
    }
  }

  /** The places are all those of the document in precedence order, and the text's directives are theirs. */
  ghost predicate ListsInOrder(doc: Doc, root: string, text: string, places: seq<Place>)
  {
    && Increasing(places) && (forall p :: p in places <==> HasPlace(doc, p))
    && Directives(SplitLines(text)) == EmittedAt(doc, root, places)
  }

  /** Reading back the text yields the anchored rules of the document in precedence order, each exactly once. */
  ghost predicate RendersDoc(doc: Doc, root: string, text: string)
  {
    exists places :: ListsInOrder(doc, root, text, places)
  }

  /** The merged filter file of one repo. */
  method ComputeMerged(doc: Doc, root: string, rendered: string, fetched: string) returns (text: string)
    requires OneLineDoc(doc) && OneLine(rendered) && OneLine(fetched)
    ensures RendersDoc(doc, root, text)
  {
    hide Renders, OneLine, Increasing, StrLess;
    ghost var lines;
    text, lines := WriteHeader(doc, root, rendered, fetched);
    ghost var places: seq<Place> := [];
    NothingStands(doc.repoRules);
    if |doc.repoRules| > 0 {
      RepoTitleIsComment(doc, root);
      text, lines := WriteLine(text, REPO_TITLE, doc, root, lines, places, []);
      assert places + [] == places;
      RepoIsPlaced(doc);
      ghost var added;
      text, lines, added := WriteRules(text, doc.repoRules, root, doc, -1, "", 0, lines, places);
      assert places + added == added;
      places := added;
      BlankIsComment(doc, root);
      text, lines := WriteLine(text, "", doc, root, lines, places, []);
      assert places + [] == places;
    }
    text, lines, places := WriteSets(text, doc, root, lines, places);
    ReadsBack(doc, root, text, lines, places);
    assert ListsInOrder(doc, root, text, places);
  }

  lemma NothingStands(rules: seq<Rule>)
    ensures Increasing([])
    ensures rules == [] ==> forall p :: !Stands(rules, -1, "", 0, p)
  {
  }

  lemma RepoTitleIsComment(doc: Doc, root: string)
    ensures Renders(doc, root, [REPO_TITLE], [])
  {
    RendersComment(doc, root, REPO_TITLE);
  }

  lemma ReadsBack(doc: Doc, root: string, text: string, lines: seq<string>, places: seq<Place>)
    requires Built(doc, root, text, lines, places)
    ensures forall p :: p in places ==> HasPlace(doc, p)
    ensures Directives(SplitLines(text)) == EmittedAt(doc, root, places)
  {
    SplitUnlines(lines);
    DirectivesConcat(lines, [""]);
    assert Directives([""][..0]) == [];
    assert Directives([""]) == [];
  }

  /**
   Rendering preserves precedence. For any matcher, the first match among the lines of a
   rendered file is the decision of the first matching anchored rule in repo, site, org order,
   then by set name, position and place in the list; and there is none exactly when no rule
   of the document applies and matches.
   */
  lemma RenderingPreservesPrecedence(doc: Doc, root: string, text: string, matches: string -> bool)
    requires RendersDoc(doc, root, text)
    ensures var d := FirstMatch(Directives(SplitLines(text)), matches);
            && (d.None? <==> forall p :: HasPlace(doc, p) ==> !MatchesAt(doc, root, matches, p))
            && (d.Some? ==> exists p ::
                  && HasPlace(doc, p) && MatchesAt(doc, root, matches, p)
                  && d.value == (RuleAt(doc, p).action == "include")
                  && forall q :: HasPlace(doc, q) && MatchesAt(doc, root, matches, q) ==> q == p || Before(p, q))
  {
    hide HasPlace, RuleAt, Before, MatchesAt, FirstMatch, EmittedAt, Increasing;
    var places :| ListsInOrder(doc, root, text, places);
    FirstMatchDecides(doc, root, matches, places);
  }
}
