/** What a rendered filter file says, told from the rules and their scopes alone. */
module Precedence {
  import opened Options
  import opened Text
  import opened Filters

  // ------------------------------------------------------------------------------
  // Which patterns are emitted
  // ------------------------------------------------------------------------------

  /** `rest` is what the pattern comes to in a repo rooted at `root`, written without a slash at its end; the root directory is "". */
  predicate ComesTo(pattern: string, root: string, rest: string)
  {
    if root != "" && pattern != "" && pattern[0] == '/' then pattern == root + "/" + rest && rest != ""
    else pattern != "" && ((pattern == rest && pattern[0] != '/') || pattern == "/" + rest)
  }

  /**
   Exactly what is emitted of a pattern, whether the root is given with or without a slash at its
   end: a relative pattern as it is, an absolute one without the root in front of it.
   */
  lemma AnchorMeans(pattern: string, root: string, slash: bool, rest: string)
    requires root == "" || root[|root| - 1] != '/'
    ensures AnchorPattern(pattern, if slash then root + "/" else root) == Some(rest) <==> ComesTo(pattern, root, rest)
  {
    var matchRoot := if slash then root + "/" else root;
    assert slash ==> matchRoot[..|matchRoot| - 1] == root;
    assert TrimSlash(matchRoot) == root;
    if pattern != "" && pattern[0] == '/' {
      assert pattern == "/" + pattern[1..];
      if root != "" {
        AnchorIsExact(pattern, matchRoot, rest);
      }
    }
  }

  // ------------------------------------------------------------------------------
  // Which lines stand in the file
  // ------------------------------------------------------------------------------

  lemma {:induction false} DirectiveIsLine(lines: seq<string>, d: Directive)
    ensures d in Directives(lines) <==> ((if d.includes then "+" else "-") + d.pattern) in lines
  {
    var line := (if d.includes then "+" else "-") + d.pattern;
    if lines != [] {
      var init, last := lines[..|lines| - 1], lines[|lines| - 1];
      DirectiveIsLine(init, d);
      assert lines == init + [last];
      assert line[1..] == d.pattern;
      assert last != "" ==> last == [last[0]] + last[1..];
    }
  }

  lemma {:induction false} EmittedFrom(doc: Doc, root: string, places: seq<Place>, d: Directive)
    requires forall p :: p in places ==> HasPlace(doc, p)
    ensures d in EmittedAt(doc, root, places) <==> exists p :: p in places && d in Emit(RuleAt(doc, p), root)
  {
    hide HasPlace, RuleAt, Emit;
    if places != [] {
      EmittedFrom(doc, root, places[1..], d);
      assert places == [places[0]] + places[1..];
    }
  }

  /** The rules that are rendered: the repo's own and those of every set but the repo's. */
  predicate Rendered(doc: Doc, r: Rule)
  {
    r in doc.repoRules || exists s :: s in doc.sets && s.scope != "repo" && r in s.rules
  }

  lemma PlacesOfRules(doc: Doc, r: Rule)
    ensures Rendered(doc, r) <==> exists p :: HasPlace(doc, p) && RuleAt(doc, p) == r
  {
    if r in doc.repoRules {
      var i :| 0 <= i < |doc.repoRules| && doc.repoRules[i] == r;
      var p := Place(-1, "", 0, r.position, i);
      assert HasPlace(doc, p) && RuleAt(doc, p) == r;
    } else if Rendered(doc, r) {
      var s :| s in doc.sets && s.scope != "repo" && r in s.rules;
      var n :| 0 <= n < |doc.sets| && doc.sets[n] == s;
      var i :| 0 <= i < |s.rules| && s.rules[i] == r;
      var p := Place(ScopeOrder(s.scope), s.name, n, r.position, i);
      assert InSet(doc, n, p);
      assert HasPlace(doc, p) && RuleAt(doc, p) == r;
    }
  }

  /**
   The lines of a rendered file that a reader acts on: a plus and a pattern for each include rule
   that comes to that pattern in the repo, a minus for each other rule, and no more.
   */
  lemma LinesAreRules(doc: Doc, root: string, text: string, pattern: string)
    requires RendersDoc(doc, root, text)
    ensures "+" + pattern in SplitLines(text) <==>
            exists r :: Rendered(doc, r) && r.action == "include" && AnchorPattern(r.pattern, root) == Some(pattern)
    ensures "-" + pattern in SplitLines(text) <==>
            exists r :: Rendered(doc, r) && r.action != "include" && AnchorPattern(r.pattern, root) == Some(pattern)
  {
    LineIsRule(doc, root, text, Directive(true, pattern));
    LineIsRule(doc, root, text, Directive(false, pattern));
  }

  lemma LineIsRule(doc: Doc, root: string, text: string, d: Directive)
    requires RendersDoc(doc, root, text)
    ensures ((if d.includes then "+" else "-") + d.pattern) in SplitLines(text) <==>
            exists r :: Rendered(doc, r) && (r.action == "include") == d.includes && AnchorPattern(r.pattern, root) == Some(d.pattern)
  {
    var places :| ListsInOrder(doc, root, text, places);
    DirectiveIsLine(SplitLines(text), d);
    EmittedFrom(doc, root, places, d);
    hide HasPlace, RuleAt, Rendered, EmittedAt, Directives, SplitLines, AnchorPattern;
    forall r
      ensures Rendered(doc, r) <==> exists p :: HasPlace(doc, p) && RuleAt(doc, p) == r
    {
      PlacesOfRules(doc, r);
    }
  }

  // ------------------------------------------------------------------------------
  // Which scope decides
  // ------------------------------------------------------------------------------

  predicate Applies(r: Rule, root: string, matches: string -> bool)
  {
    AnchorPattern(r.pattern, root).Some? && matches(AnchorPattern(r.pattern, root).value)
  }

  predicate SomeApplies(rules: seq<Rule>, root: string, matches: string -> bool)
  {
    exists r :: r in rules && Applies(r, root, matches)
  }

  /** The decision of the rules alone: that of the matching one with the lowest position, the earlier of two at one position. */
  ghost predicate FirstDecides(rules: seq<Rule>, root: string, matches: string -> bool, d: Option<bool>)
  {
    exists i :: 0 <= i < |rules| && Applies(rules[i], root, matches) && d == Some(rules[i].action == "include")
                && forall j :: 0 <= j < |rules| && Applies(rules[j], root, matches) ==>
                                 rules[i].position < rules[j].position || (rules[i].position == rules[j].position && i <= j)
  }

  predicate Site(s: FilterSet) { s.scope == "site" }

  predicate Org(s: FilterSet) { s.scope == "org" }

  predicate Other(s: FilterSet) { s.scope != "site" && s.scope != "org" && s.scope != "repo" }

  predicate SomeSetApplies(doc: Doc, root: string, matches: string -> bool, scope: FilterSet -> bool)
  {
    exists s :: s in doc.sets && scope(s) && SomeApplies(s.rules, root, matches)
  }

  /** A set of the scope decides: none of the scope that has a matching rule comes before it by name. */
  ghost predicate ScopeDecides(doc: Doc, root: string, matches: string -> bool, scope: FilterSet -> bool, d: Option<bool>)
  {
    exists s :: s in doc.sets && scope(s) && FirstDecides(s.rules, root, matches, d)
                && forall x :: x in doc.sets && scope(x) && SomeApplies(x.rules, root, matches) ==> !StrLess(x.name, s.name)
  }

  /** The most specific scope with a matching rule decides: the repo's own rules, then site sets, then org sets, then the rest. */
  ghost predicate MostSpecific(doc: Doc, root: string, matches: string -> bool, d: Option<bool>)
  {
    if SomeApplies(doc.repoRules, root, matches) then FirstDecides(doc.repoRules, root, matches, d)
    else if SomeSetApplies(doc, root, matches, Site) then ScopeDecides(doc, root, matches, Site, d)
    else if SomeSetApplies(doc, root, matches, Org) then ScopeDecides(doc, root, matches, Org, d)
    else if SomeSetApplies(doc, root, matches, Other) then ScopeDecides(doc, root, matches, Other, d)
    else d == None
  }

  /** Where the repo's own rules stand, and those of a set. */
  lemma OwnPlace(doc: Doc, i: nat)
    requires i < |doc.repoRules|
    ensures var p := Place(-1, "", 0, doc.repoRules[i].position, i); HasPlace(doc, p) && RuleAt(doc, p) == doc.repoRules[i]
  {
  }

  lemma SetPlace(doc: Doc, n: nat, i: nat)
    requires n < |doc.sets| && i < |doc.sets[n].rules| && doc.sets[n].scope != "repo"
    ensures var s := doc.sets[n]; var p := Place(ScopeOrder(s.scope), s.name, n, s.rules[i].position, i);
            HasPlace(doc, p) && RuleAt(doc, p) == s.rules[i]
  {
    var s := doc.sets[n];
    assert InSet(doc, n, Place(ScopeOrder(s.scope), s.name, n, s.rules[i].position, i));
  }

  /** `p` is a place whose rule applies, and no other such place comes before it. */
  ghost predicate FirstPlace(doc: Doc, root: string, matches: string -> bool, p: Place)
  {
    && HasPlace(doc, p) && Applies(RuleAt(doc, p), root, matches)
    && forall q :: HasPlace(doc, q) && Applies(RuleAt(doc, q), root, matches) ==> q == p || Before(p, q)
  }

  lemma OwnFirst(doc: Doc, root: string, matches: string -> bool, p: Place, d: Option<bool>)
    requires FirstPlace(doc, root, matches, p) && d == Some(RuleAt(doc, p).action == "include") && p.tier == -1
    ensures FirstDecides(doc.repoRules, root, matches, d)
  {
    assert Stands(doc.repoRules, -1, "", 0, p);
    forall j | 0 <= j < |doc.repoRules| && Applies(doc.repoRules[j], root, matches)
      ensures p.position < doc.repoRules[j].position || (p.position == doc.repoRules[j].position && p.index <= j)
    {
      OwnPlace(doc, j);
      var q := Place(-1, "", 0, doc.repoRules[j].position, j);
      assert q == p || Before(p, q);
    }
  }

  lemma SetFirst(doc: Doc, root: string, matches: string -> bool, p: Place, d: Option<bool>)
    requires FirstPlace(doc, root, matches, p) && d == Some(RuleAt(doc, p).action == "include") && p.tier != -1
    ensures p.set_ < |doc.sets| && InSet(doc, p.set_, p) && FirstDecides(doc.sets[p.set_].rules, root, matches, d)
  {
    var s := doc.sets[p.set_];
    forall j | 0 <= j < |s.rules| && Applies(s.rules[j], root, matches)
      ensures p.position < s.rules[j].position || (p.position == s.rules[j].position && p.index <= j)
    {
      SetPlace(doc, p.set_, j);
      var q := Place(ScopeOrder(s.scope), s.name, p.set_, s.rules[j].position, j);
      assert q == p || Before(p, q);
      NameIsNotLess(s.name);
    }
  }

  lemma NameIsNotLess(name: string)
    ensures !StrLess(name, name)
  {
    StrLessTotal(name, name);
  }

  /** Nothing that applies stands in a lower tier, or in the same tier under a smaller name. */
  lemma NothingLower(doc: Doc, root: string, matches: string -> bool, p: Place, x: FilterSet)
    requires FirstPlace(doc, root, matches, p)
    requires x in doc.sets && x.scope != "repo" && SomeApplies(x.rules, root, matches)
    ensures ScopeOrder(x.scope) >= p.tier
    ensures ScopeOrder(x.scope) == p.tier ==> !StrLess(x.name, p.name)
  {
    var r :| r in x.rules && Applies(r, root, matches);
    var n :| 0 <= n < |doc.sets| && doc.sets[n] == x;
    var i :| 0 <= i < |x.rules| && x.rules[i] == r;
    SetPlace(doc, n, i);
    var q := Place(ScopeOrder(x.scope), x.name, n, r.position, i);
    assert q == p || Before(p, q);
    StrLessTotal(x.name, p.name);
  }

  lemma OwnIsLowest(doc: Doc, root: string, matches: string -> bool, p: Place)
    requires FirstPlace(doc, root, matches, p) && SomeApplies(doc.repoRules, root, matches)
    ensures p.tier == -1
  {
    var r :| r in doc.repoRules && Applies(r, root, matches);
    var i :| 0 <= i < |doc.repoRules| && doc.repoRules[i] == r;
    OwnPlace(doc, i);
    var q := Place(-1, "", 0, r.position, i);
    assert q == p || Before(p, q);
  }

  lemma FirstIsMostSpecific(doc: Doc, root: string, matches: string -> bool, p: Place, d: Option<bool>)
    requires FirstPlace(doc, root, matches, p) && d == Some(RuleAt(doc, p).action == "include")
    ensures MostSpecific(doc, root, matches, d)
  {
    if p.tier == -1 {
      OwnFirst(doc, root, matches, p, d);
      assert RuleAt(doc, p) in doc.repoRules;
    } else {
      SetFirst(doc, root, matches, p, d);
      var s := doc.sets[p.set_];
      assert RuleAt(doc, p) in s.rules && SomeApplies(s.rules, root, matches);
      if SomeApplies(doc.repoRules, root, matches) {
        OwnIsLowest(doc, root, matches, p);
      }
      hide FirstPlace, Applies, FirstDecides, SomeApplies, StrLess, HasPlace, RuleAt;
      forall x | x in doc.sets && x.scope != "repo" && SomeApplies(x.rules, root, matches)
        ensures ScopeOrder(x.scope) >= p.tier && (ScopeOrder(x.scope) == p.tier ==> !StrLess(x.name, s.name))
      {
        NothingLower(doc, root, matches, p, x);
      }
    }
  }

  /**
   First match wins by specificity: for any matcher, the first line of a rendered file that
   matches says what the most specific scope with a matching rule says, within a scope the set
   that comes first by name, within a set the rule with the lowest position; and there is no such
   line exactly when no rule of any scope matches.
   */
  lemma MostSpecificDecides(doc: Doc, root: string, text: string, matches: string -> bool)
    requires RendersDoc(doc, root, text)
    ensures MostSpecific(doc, root, matches, FirstMatch(Directives(SplitLines(text)), matches))
  {
    var d := FirstMatch(Directives(SplitLines(text)), matches);
    RenderingPreservesPrecedence(doc, root, text, matches);
    hide FirstMatch, Directives, SplitLines, RendersDoc;
    if d.Some? {
      var p :| && HasPlace(doc, p) && MatchesAt(doc, root, matches, p)
               && d.value == (RuleAt(doc, p).action == "include")
               && forall q :: HasPlace(doc, q) && MatchesAt(doc, root, matches, q) ==> q == p || Before(p, q);
      IsFirstPlace(doc, root, matches, p);
      FirstIsMostSpecific(doc, root, matches, p, d);
    } else {
      NothingApplies(doc, root, matches);
    }
  }

  lemma IsFirstPlace(doc: Doc, root: string, matches: string -> bool, p: Place)
    requires HasPlace(doc, p) && MatchesAt(doc, root, matches, p)
    requires forall q :: HasPlace(doc, q) && MatchesAt(doc, root, matches, q) ==> q == p || Before(p, q)
    ensures FirstPlace(doc, root, matches, p)
  {
    hide HasPlace, RuleAt, Before, AnchorPattern;
  }

  lemma NothingApplies(doc: Doc, root: string, matches: string -> bool)
    requires forall p :: HasPlace(doc, p) ==> !MatchesAt(doc, root, matches, p)
    ensures MostSpecific(doc, root, matches, None)
  {
    forall r | Rendered(doc, r)
      ensures !Applies(r, root, matches)
    {
      PlacesOfRules(doc, r);
    }
    hide Applies, HasPlace;
    assert forall r :: r in doc.repoRules ==> Rendered(doc, r);
    assert forall s, r :: s in doc.sets && s.scope != "repo" && r in s.rules ==> Rendered(doc, r);
  }
}
