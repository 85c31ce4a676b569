/** A persisted application policy, from stored rule documents to the access verdict. */
module Policy {
  import opened Wrappers
  import opened Rules
  import opened RuleLaws
  import opened Evaluate
  import opened EvaluateLaws
  import opened Decide

  datatype GroupKind = ManualKind | RuleKind | OtherKind(text: string)

  /** A stored group; its rule is held as the decoded document. */
  datatype UserGroup = UserGroup(id: int, slug: string, exposed: bool, kind: GroupKind, rule: RuleWire)

  datatype PolicyError = NotARuleGroup(id: int) | InvalidRule(id: int, error: RuleError)

  function Persisted(g: UserGroup, providers: set<string>): Result<Rule, PolicyError> {
    if !g.kind.RuleKind? then Err(NotARuleGroup(g.id))
    else
      match Parsed(g.rule, providers)
      case Ok(rule) => Ok(rule)
      case Err(e) => Err(InvalidRule(g.id, e))
  }

  method ParsePersistedRule(g: UserGroup, providers: set<string>) returns (r: Result<Rule, PolicyError>)
    ensures r == Persisted(g, providers)
    ensures !g.kind.RuleKind? ==> r == Err(NotARuleGroup(g.id))
    ensures g.kind.RuleKind? ==>
              match Parsed(g.rule, providers)
              case Ok(rule) => r == Ok(rule)
              case Err(e) => r == Err(InvalidRule(g.id, e))
  {
    if !g.kind.RuleKind? {
      return Err(NotARuleGroup(g.id));
    }
    var rule := ParseAndValidateRule(g.rule, providers);
    if rule.Err? {
      return Err(InvalidRule(g.id, rule.error));
    }
    return Ok(rule.value);
  }

  /** The stored group can be evaluated, stated without parsing it. */
  predicate Sound(g: UserGroup, providers: set<string>) {
    && g.kind.RuleKind? && g.rule.version == Value(1) && g.rule.condition.Value?
    && Admissible(g.rule.condition.v, providers)
  }

  /** The condition a group stores, if it stores one. */
  function StoredCondition(g: UserGroup): ConditionWire {
    if g.rule.condition.Value? then g.rule.condition.v else BLANK
  }

  predicate Applies(g: UserGroup, facts: Facts) {
    Holds(ToCondition(StoredCondition(g)), facts)
  }

  /** The group as the decision sees it. */
  function MatchOf(g: UserGroup, facts: Facts): GroupMatch {
    GroupMatch(g.id, g.slug, g.exposed, Applies(g, facts))
  }

  function MatchesOf(groups: seq<UserGroup>, facts: Facts): (ms: seq<GroupMatch>)
    ensures |ms| == |groups| && forall i :: 0 <= i < |groups| ==> ms[i] == MatchOf(groups[i], facts)
  {
    seq(|groups|, i requires 0 <= i < |groups| => MatchOf(groups[i], facts))
  }

  lemma SoundIffPersisted(g: UserGroup, providers: set<string>)
    ensures Persisted(g, providers).Ok? <==> Sound(g, providers)
    ensures Persisted(g, providers).Ok? ==> Persisted(g, providers).value.condition == ToCondition(g.rule.condition.v)
  {
    AcceptsExactlyAdmissible(g.rule, providers);
  }

  /** The error is that of the first group that cannot be evaluated. */
  ghost predicate FirstUnsound(groups: seq<UserGroup>, error: PolicyError, providers: set<string>) {
    exists i :: 0 <= i < |groups| && Persisted(groups[i], providers) == Err(error)
                && forall j :: 0 <= j < i ==> Sound(groups[j], providers)
  }

  /** One group: parse its rule, evaluate it, keep the explanation's result. */
  method MatchRuleGroup(group: UserGroup, facts: Facts, providers: set<string>) returns (r: Result<GroupMatch, PolicyError>)
    ensures r.Ok? <==> Sound(group, providers)
    ensures r.Ok? ==> r.value == MatchOf(group, facts)
    ensures r.Ok? ==> && r.value.id == group.id && r.value.slug == group.slug && r.value.exposed == group.exposed
                      && r.value.matched == Holds(ToCondition(group.rule.condition.v), facts)
    ensures r.Err? ==> Persisted(group, providers) == Err(r.error)
  {
    SoundIffPersisted(group, providers);
    var rule := ParsePersistedRule(group, providers);
    if rule.Err? {
      return Err(rule.error);
    }
    var explanation := EvaluateCondition(rule.value.condition, facts, "$");
    return Ok(GroupMatch(group.id, group.slug, group.exposed, explanation.result));
  }

  /** The first group that cannot be evaluated fails the whole policy; otherwise every group is matched, in order. */
  method MatchRuleGroups(groups: seq<UserGroup>, facts: Facts, providers: set<string>)
    returns (r: Result<seq<GroupMatch>, PolicyError>)
    ensures r.Ok? <==> forall i :: 0 <= i < |groups| ==> Sound(groups[i], providers)
    ensures r.Ok? ==> r.value == MatchesOf(groups, facts)
    ensures r.Err? ==> FirstUnsound(groups, r.error, providers)
  {
    var matches: seq<GroupMatch> := [];
    for i := 0 to |groups|
      invariant forall j :: 0 <= j < i ==> Sound(groups[j], providers)
      invariant |matches| == i && forall j :: 0 <= j < i ==> matches[j] == MatchOf(groups[j], facts)
    {
      var one := MatchRuleGroup(groups[i], facts, providers);
      if one.Err? {
        return Err(one.error);
      }
      matches := matches + [one.value];
    }
    return Ok(matches);
  }

  method DecidePersistedPolicy(restricted: bool, manual: seq<GroupMatch>, groups: seq<UserGroup>, facts: Facts,
                               providers: set<string>) returns (r: Result<Decision, PolicyError>)
    ensures r.Ok? <==> forall i :: 0 <= i < |groups| ==> Sound(groups[i], providers)
    ensures r.Ok? ==> r.value == Decided(restricted, manual, MatchesOf(groups, facts))
    ensures r.Err? ==> FirstUnsound(groups, r.error, providers)
    ensures r.Ok? ==> forall s :: s in ExposedSet(r.value) <==> Exposes(manual, groups, facts, r.value.source, s)
    ensures r.Ok? ==> forall e :: e in r.value.matchingRuleGroups <==>
              exists i :: 0 <= i < |groups| && Applies(groups[i], facts) && Stands(e, groups[i])
  {
    forall s
      ensures var d := Decided(restricted, manual, MatchesOf(groups, facts));
        s in ExposedSet(d) <==> Exposes(manual, groups, facts, d.source, s)
    {
      ExposureIff(restricted, manual, groups, facts, s);
    }
    MatchingEntries(restricted, manual, groups, facts);
    var matches := MatchRuleGroups(groups, facts, providers);
    if matches.Err? {
      return Err(matches.error);
    }
    var d := DecideGroups(restricted, manual, matches.value);
    return Ok(d);
  }

  /** The slug is claimed for the account, told from the stored groups and the account's facts. */
  ghost predicate Exposes(manual: seq<GroupMatch>, groups: seq<UserGroup>, facts: Facts, source: DecisionSource, slug: string) {
    || (exists i :: 0 <= i < |groups| && Applies(groups[i], facts) && groups[i].exposed && groups[i].slug == slug)
    || (source == SourceManualAllow && exists g :: g in manual && g.exposed && g.slug == slug)
  }

  /** The entry carries the matched group's own id, slug and exposure. */
  predicate Stands(e: GroupMatch, g: UserGroup) {
    e.id == g.id && e.slug == g.slug && e.exposed == g.exposed && e.matched
  }

  lemma RuleExposure(groups: seq<UserGroup>, facts: Facts, slug: string)
    ensures (exists e :: e in Matching(MatchesOf(groups, facts)) && e.exposed && e.slug == slug) <==>
            exists i :: 0 <= i < |groups| && Applies(groups[i], facts) && groups[i].exposed && groups[i].slug == slug
  {
    var ms := MatchesOf(groups, facts);
    if e :| e in Matching(ms) && e.exposed && e.slug == slug {
      var i :| 0 <= i < |ms| && ms[i] == e;
      assert Applies(groups[i], facts) && groups[i].exposed && groups[i].slug == slug;
    }
    if i :| 0 <= i < |groups| && Applies(groups[i], facts) && groups[i].exposed && groups[i].slug == slug {
      assert ms[i] in Matching(ms);
    }
  }

  /** After a decision a slug is exposed exactly through an exposed group that applies, or an exposed manual one that decided. */
  lemma ExposureIff(restricted: bool, manual: seq<GroupMatch>, groups: seq<UserGroup>, facts: Facts, slug: string)
    ensures var d := Decided(restricted, manual, MatchesOf(groups, facts));
      slug in ExposedSet(d) <==> Exposes(manual, groups, facts, d.source, slug)
  {
    AllowedIff(restricted, manual, MatchesOf(groups, facts));
    RuleExposure(groups, facts, slug);
  }

  lemma MatchingEntries(restricted: bool, manual: seq<GroupMatch>, groups: seq<UserGroup>, facts: Facts)
    ensures var d := Decided(restricted, manual, MatchesOf(groups, facts));
      forall e :: e in d.matchingRuleGroups <==>
        exists i :: 0 <= i < |groups| && Applies(groups[i], facts) && Stands(e, groups[i])
  {
    var ms := MatchesOf(groups, facts);
    forall e
      ensures e in Matching(ms) <==> exists i :: 0 <= i < |groups| && Applies(groups[i], facts) && Stands(e, groups[i])
    {
      if e in Matching(ms) {
        var i :| 0 <= i < |ms| && ms[i] == e;
        assert Applies(groups[i], facts) && Stands(e, groups[i]);
      }
      if i :| 0 <= i < |groups| && Applies(groups[i], facts) && Stands(e, groups[i]) {
        assert ms[i] == e;
      }
    }
  }

  /** The verdict of a policy, in terms of stored documents and account facts alone. */
  lemma PolicyAllowsIff(restricted: bool, manual: seq<GroupMatch>, groups: seq<UserGroup>, facts: Facts)
    ensures Decided(restricted, manual, MatchesOf(groups, facts)).allowed <==>
            || !restricted
            || (!(exists g :: g in manual && !g.matched)
                && (manual != []
                    || exists i :: 0 <= i < |groups| && Applies(groups[i], facts)))
  {
    var ms := MatchesOf(groups, facts);
    AllowedIff(restricted, manual, ms);
    if g :| g in ms && g.matched {
      var i :| 0 <= i < |ms| && ms[i] == g;
      assert Applies(groups[i], facts);
    }
    if i :| 0 <= i < |groups| && Applies(groups[i], facts) {
      assert ms[i] in ms && ms[i].matched;
    }
  }

  /** An account that only gains facts keeps its access, as long as no negated leaf of the policy changes. */
  lemma GainingFactsKeepsAccess(restricted: bool, manual: seq<GroupMatch>, groups: seq<UserGroup>, f: Facts, g: Facts,
                                providers: set<string>)
    requires forall i :: 0 <= i < |groups| ==> Sound(groups[i], providers)
    requires Grows(f, g)
    requires forall i :: 0 <= i < |groups| ==>
      NotFree(ToCondition(StoredCondition(groups[i]))) || NegatedLeavesAgree(ToCondition(StoredCondition(groups[i])), f, g)
    requires Decided(restricted, manual, MatchesOf(groups, f)).allowed
    ensures Decided(restricted, manual, MatchesOf(groups, g)).allowed
  {
    PolicyAllowsIff(restricted, manual, groups, f);
    PolicyAllowsIff(restricted, manual, groups, g);
    if i :| 0 <= i < |groups| && Applies(groups[i], f) {
      AcceptsExactlyAdmissible(groups[i].rule, providers);
      AcceptedRuleIsMonotone(groups[i].rule, providers, f, g);
    }
  }

  /** Forgetting providers breaks a stored policy exactly when one of its rules mentions a forgotten one. */
  lemma ForgettingProviders(groups: seq<UserGroup>, p: set<string>, q: set<string>)
    requires forall i :: 0 <= i < |groups| ==> Sound(groups[i], p)
    ensures (forall i :: 0 <= i < |groups| ==> Sound(groups[i], q)) <==>
            forall i :: 0 <= i < |groups| ==> Mentioned(StoredCondition(groups[i])) <= q
  {
    forall i | 0 <= i < |groups|
      ensures Sound(groups[i], q) <==> Mentioned(StoredCondition(groups[i])) <= q
    {
      AcceptsExactlyAdmissible(groups[i].rule, p);
      AcceptsExactlyAdmissible(groups[i].rule, q);
      OnlyMentionedProvidersMatter(groups[i].rule, p, q);
    }
  }

  /** The rows of one account agree but for the order and repetition of their slugs. */
  ghost predicate SameRow(a: FactsRow, b: FactsRow) {
    && a.(providerSlugs := b.providerSlugs, protocols := b.protocols) == b
    && (forall s :: s in a.providerSlugs <==> s in b.providerSlugs)
    && (forall p :: p in a.protocols <==> p in b.protocols)
  }

  /** Reordering or repeating the slugs of an account's row changes neither its error nor any decision about it. */
  lemma RowOrderIrrelevant(a: FactsRow, b: FactsRow, restricted: bool, manual: seq<GroupMatch>, groups: seq<UserGroup>)
    requires SameRow(a, b)
    ensures RowFacts(a).Err? || RowFacts(b).Err? ==> RowFacts(a) == RowFacts(b)
    ensures RowFacts(a).Ok? && RowFacts(b).Ok? ==>
            Decided(restricted, manual, MatchesOf(groups, RowFacts(a).value)) ==
            Decided(restricted, manual, MatchesOf(groups, RowFacts(b).value))
  {
    assert Elements(a.providerSlugs) == Elements(b.providerSlugs);
    assert Elements(a.protocols) == Elements(b.protocols);
  }
}
