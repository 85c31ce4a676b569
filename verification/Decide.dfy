/** The precedence engine over manual and rule groups, and the slugs an allowed application may see. */
module Decide {
  datatype GroupMatch = GroupMatch(id: int, slug: string, exposed: bool, matched: bool)

  datatype ManualEffect = ManualNeutral | ManualAllow | ManualDeny | OtherEffect(text: string)

  datatype DecisionSource = SourceOpen | SourceManualDeny | SourceManualAllow | SourceRule | SourceNoMatch

  datatype Decision = Decision(
    allowed: bool,
    source: DecisionSource,
    manualGroups: seq<GroupMatch>,
    matchingRuleGroups: seq<GroupMatch>)

  function Matching(groups: seq<GroupMatch>): (m: seq<GroupMatch>)
    ensures forall g :: g in m <==> g in groups && g.matched
  {
    if groups == [] then []
    else
      var front, last := groups[..|groups| - 1], groups[|groups| - 1];
      assert groups == front + [last];
      Matching(front) + if last.matched then [last] else []
  }

  method MatchingGroups(groups: seq<GroupMatch>) returns (m: seq<GroupMatch>)
    ensures m == Matching(groups)
  {
    m := [];
    for i := 0 to |groups|
      invariant m == Matching(groups[..i])
    {
      assert groups[..i + 1][..i] == groups[..i];
      if groups[i].matched {
        m := m + [groups[i]];
      }
    }
    assert groups[..|groups|] == groups;
  }

  lemma MatchingMore(a: seq<GroupMatch>, g: GroupMatch)
    ensures Matching(a + [g]) == Matching(a) + if g.matched then [g] else []
  {
    assert (a + [g])[..|a|] == a;
  }

  lemma {:induction false} MatchingAppend(a: seq<GroupMatch>, b: seq<GroupMatch>)
    ensures Matching(a + b) == Matching(a) + Matching(b)
    decreases |b|
  {
    if b == [] {
      assert a + b == a;
    } else {
      var front, last := b[..|b| - 1], b[|b| - 1];
      var kept := if last.matched then [last] else [];
      calc {
        Matching(a + b);
      == { assert a + b == (a + front) + [last]; MatchingMore(a + front, last); }
        Matching(a + front) + kept;
      == { MatchingAppend(a, front); }
        (Matching(a) + Matching(front)) + kept;
      ==
        Matching(a) + (Matching(front) + kept);
      == { assert b == front + [last]; MatchingMore(front, last); }
        Matching(a) + Matching(b);
      }
    }
  }

  /** Matched groups keep their order and number: an unmatched group is cut out of the list, a matched one stays in place. */
  lemma MatchingInPlace(a: seq<GroupMatch>, g: GroupMatch, b: seq<GroupMatch>)
    ensures Matching(a + [g] + b) == Matching(a) + (if g.matched then [g] else []) + Matching(b)
  {
    MatchingAppend(a + [g], b);
    MatchingMore(a, g);
  }

  /** The decision for one manual effect. */
  function DecideOne(restricted: bool, manual: ManualEffect, matches: seq<GroupMatch>): Decision {
    var rules := Matching(matches);
    if !restricted then Decision(true, SourceOpen, [], rules)
    else
      match manual
      case ManualDeny => Decision(false, SourceManualDeny, [], rules)
      case ManualAllow => Decision(true, SourceManualAllow, [], rules)
      case ManualNeutral =>
        if rules != [] then Decision(true, SourceRule, [], rules) else Decision(false, SourceNoMatch, [], rules)
      case OtherEffect(_) => Decision(false, SourceNoMatch, [], rules)
  }

  /** Any unmatched manual group denies, otherwise any group at all allows. */
  function Fold(manual: seq<GroupMatch>): ManualEffect {
    if exists g :: g in manual && !g.matched then ManualDeny
    else if manual != [] then ManualAllow
    else ManualNeutral
  }

  /** Many manual groups decide as the one effect they fold to. */
  function Decided(restricted: bool, manual: seq<GroupMatch>, rules: seq<GroupMatch>): Decision {
    DecideOne(restricted, Fold(manual), rules).(manualGroups := Matching(manual))
  }

  method DecideGroups(restricted: bool, manualGroups: seq<GroupMatch>, ruleMatches: seq<GroupMatch>)
    returns (d: Decision)
    ensures d == Decided(restricted, manualGroups, ruleMatches)
  {
    var manual := MatchingGroups(manualGroups);
    var rules := MatchingGroups(ruleMatches);
    d := Decision(false, SourceNoMatch, manual, rules);
    if !restricted {
      return d.(allowed := true, source := SourceOpen);
    }
    for i := 0 to |manualGroups|
      invariant forall j :: 0 <= j < i ==> manualGroups[j].matched
    {
      if !manualGroups[i].matched {
        return d.(allowed := false, source := SourceManualDeny);
      }
    }
    assert manualGroups != [] ==> manualGroups[0] in manual;
    if |manual| > 0 {
      assert manual[0] in manual;
      return d.(allowed := true, source := SourceManualAllow);
    }
    if |rules| > 0 {
      return d.(allowed := true, source := SourceRule);
    }
    return d.(source := SourceNoMatch);
  }

  // ---------------------------------------------------------------- laws

  ghost predicate SameMembers(a: seq<GroupMatch>, b: seq<GroupMatch>) {
    forall g :: g in a <==> g in b
  }

  /** The single-effect engine: an effect it does not know never lets anyone in. */
  lemma DecideOneIff(restricted: bool, manual: ManualEffect, matches: seq<GroupMatch>)
    ensures var d := DecideOne(restricted, manual, matches);
      var ruled := exists g :: g in matches && g.matched;
      && d.matchingRuleGroups == Matching(matches) && d.manualGroups == []
      && (d.allowed <==> !restricted || manual == ManualAllow || (manual == ManualNeutral && ruled))
      && (d.source == SourceOpen <==> !restricted)
      && (d.source == SourceManualDeny <==> restricted && manual == ManualDeny)
      && (d.source == SourceManualAllow <==> restricted && manual == ManualAllow)
      && (d.source == SourceRule <==> restricted && manual == ManualNeutral && ruled)
  {
    var m := Matching(matches);
    assert m != [] ==> m[0] in m;
  }

  /** Who is let in and on what ground, read off the inputs. */
  lemma AllowedIff(restricted: bool, manual: seq<GroupMatch>, rules: seq<GroupMatch>)
    ensures var d := Decided(restricted, manual, rules);
      var denied := exists g :: g in manual && !g.matched;
      var ruled := exists g :: g in rules && g.matched;
      && (d.allowed <==> !restricted || (!denied && (manual != [] || ruled)))
      && (d.source == SourceOpen <==> !restricted)
      && (d.source == SourceManualDeny <==> restricted && denied)
      && (d.source == SourceManualAllow <==> restricted && !denied && manual != [])
      && (d.source == SourceRule <==> restricted && manual == [] && ruled)
      && (d.source == SourceNoMatch <==> restricted && manual == [] && !ruled)
  {
    var m := Matching(rules);
    assert m != [] ==> m[0] in m;
  }

  /** The verdict sees which groups there are, not their order or repetition. */
  lemma OrderAndRepetitionIrrelevant(restricted: bool, m: seq<GroupMatch>, m': seq<GroupMatch>, r: seq<GroupMatch>,
                                     r': seq<GroupMatch>)
    requires SameMembers(m, m') && SameMembers(r, r')
    ensures var d, d' := Decided(restricted, m, r), Decided(restricted, m', r');
      d.allowed == d'.allowed && d.source == d'.source && ExposedSet(d) == ExposedSet(d')
  {
    var d, d' := Decided(restricted, m, r), Decided(restricted, m', r');
    SameEmptiness(m, m');
    SameEmptiness(Matching(r), Matching(r'));
    assert Fold(m) == Fold(m');
    SameExposure(d, d');
  }

  lemma SameEmptiness(a: seq<GroupMatch>, b: seq<GroupMatch>)
    requires SameMembers(a, b)
    ensures a == [] <==> b == []
  {
    assert a != [] ==> a[0] in b;
    assert b != [] ==> b[0] in a;
  }

  lemma SameExposure(d: Decision, d': Decision)
    requires d.source == d'.source && SameMembers(d.manualGroups, d'.manualGroups)
    requires SameMembers(d.matchingRuleGroups, d'.matchingRuleGroups)
    ensures ExposedSet(d) == ExposedSet(d')
  {
  }

  /** A further matched rule or manual allow never revokes; a further manual deny never grants. */
  lemma PrecedenceIsMonotone(restricted: bool, manual: seq<GroupMatch>, rules: seq<GroupMatch>, g: GroupMatch, i: nat)
    ensures g.matched && i <= |rules| && Decided(restricted, manual, rules).allowed ==>
            Decided(restricted, manual, rules[..i] + [g] + rules[i..]).allowed
    ensures g.matched && i <= |manual| && Decided(restricted, manual, rules).allowed ==>
            Decided(restricted, manual[..i] + [g] + manual[i..], rules).allowed
    ensures !g.matched && i <= |manual| && Decided(restricted, manual[..i] + [g] + manual[i..], rules).allowed ==>
            !restricted && Decided(restricted, manual, rules).allowed
  {
  }

  // ---------------------------------------------------- exposed slugs

  function ExposedSet(d: Decision): set<string> {
    (if d.source.SourceManualAllow? then set g | g in d.manualGroups && g.exposed :: g.slug else {})
    + set g | g in d.matchingRuleGroups && g.exposed :: g.slug
  }

  /** Byte order on text. */
  predicate Less(a: string, b: string) {
    b != "" && (a == "" || a[0] < b[0] || (a[0] == b[0] && Less(a[1..], b[1..])))
  }

  /** The order is the dictionary's: a proper prefix first, else the smaller character where the texts part. */
  lemma {:induction false} LessIff(a: string, b: string)
    ensures Less(a, b) <==> a < b || exists k :: Parts(a, b, k) && a[k] < b[k]
  {
    if a != "" && b != "" && a[0] == b[0] {
      var x, y := a[1..], b[1..];
      LessIff(x, y);
      assert a == [a[0]] + x && b == [b[0]] + y;
      assert a < b <==> x < y;
      if k :| Parts(a, b, k) && a[k] < b[k] {
        assert a[..k][1..] == x[..k - 1] && b[..k][1..] == y[..k - 1];
        assert Parts(x, y, k - 1);
      }
      if k :| Parts(x, y, k) && x[k] < y[k] {
        assert a[..k + 1] == [a[0]] + x[..k] && b[..k + 1] == [b[0]] + y[..k];
        assert Parts(a, b, k + 1);
      }
    } else if a != "" && b != "" {
      assert Parts(a, b, 0);
    }
  }

  /** The texts agree up to `k`, where both go on. */
  predicate Parts(a: string, b: string, k: int) {
    0 <= k < |a| && k < |b| && a[..k] == b[..k]
  }

  lemma {:induction false} LessTotal(a: string, b: string)
    ensures a == b || Less(a, b) || Less(b, a)
    ensures !(Less(a, b) && Less(b, a)) && !Less(a, a)
  {
    if a != "" {
      LessTotal(a[1..], a[1..]);
    }
    if a != "" && b != "" && a[0] == b[0] {
      LessTotal(a[1..], b[1..]);
      assert a == [a[0]] + a[1..] && b == [b[0]] + b[1..];
    }
  }

  lemma {:induction false} LessTransitive(a: string, b: string, c: string)
    requires Less(a, b) && Less(b, c)
    ensures Less(a, c)
  {
    if a != "" && a[0] == b[0] == c[0] {
      LessTransitive(a[1..], b[1..], c[1..]);
    }
  }

  ghost predicate Increasing(s: seq<string>) {
    forall i, j :: 0 <= i < j < |s| ==> Less(s[i], s[j])
  }

  /** A set of slugs has only one strictly increasing listing. */
  lemma {:induction false} IncreasingIsUnique(a: seq<string>, b: seq<string>)
    requires Increasing(a) && Increasing(b) && forall s :: s in a <==> s in b
    ensures a == b
    decreases |a|
  {
    assert b != [] ==> b[0] in a;
    assert a != [] ==> a[0] in b;
    if a != [] {
      SameHead(a, b);
      forall s
        ensures s in a[1..] <==> s in b[1..]
      {
        TailMembers(a, s);
        TailMembers(b, s);
      }
      IncreasingIsUnique(a[1..], b[1..]);
      assert a == [a[0]] + a[1..] && b == [b[0]] + b[1..];
    }
  }

  lemma TailMembers(a: seq<string>, s: string)
    requires Increasing(a) && a != []
    ensures s in a[1..] <==> s in a && s != a[0]
  {
    LessTotal(s, s);
    assert a == [a[0]] + a[1..];
    if s in a[1..] {
      var i :| 0 <= i < |a[1..]| && a[1..][i] == s;
      assert Less(a[0], a[i + 1]);
    }
  }

  lemma SameHead(a: seq<string>, b: seq<string>)
    requires Increasing(a) && Increasing(b) && a != [] && b != [] && a[0] in b && b[0] in a
    ensures a[0] == b[0]
  {
    var i :| 0 <= i < |b| && b[i] == a[0];
    var j :| 0 <= j < |a| && a[j] == b[0];
    LessTotal(a[0], b[0]);
  }

  /** Sorting distinct slugs. */
  method SortStrings(xs: seq<string>) returns (out: seq<string>)
    requires forall i, j :: 0 <= i < j < |xs| ==> xs[i] != xs[j]
    ensures Increasing(out) && forall s :: s in out <==> s in xs
  {
    out := [];
    for i := 0 to |xs|
      invariant Increasing(out) && forall s :: s in out <==> s in xs[..i]
    {
      assert xs[..i + 1] == xs[..i] + [xs[i]];
      out := InsertSorted(out, xs[i]);
    }
    assert xs[..|xs|] == xs;
  }

  method InsertSorted(out: seq<string>, x: string) returns (r: seq<string>)
    requires Increasing(out) && x !in out
    ensures Increasing(r) && forall s :: s in r <==> s in out || s == x
  {
    var k := 0;
    while k < |out| && Less(out[k], x)
      invariant 0 <= k <= |out|
      invariant forall i :: 0 <= i < k ==> Less(out[i], x)
    {
      k := k + 1;
    }
    forall j | k <= j < |out|
      ensures Less(x, out[j])
    {
      LessTotal(x, out[k]);
      if j > k {
        LessTransitive(x, out[k], out[j]);
      }
    }
    InsertKeepsIncreasing(out, k, x);
    r := out[..k] + [x] + out[k..];
  }

  lemma InsertKeepsIncreasing(out: seq<string>, k: nat, x: string)
    requires Increasing(out) && k <= |out|
    requires (forall i :: 0 <= i < k ==> Less(out[i], x)) && forall j :: k <= j < |out| ==> Less(x, out[j])
    ensures var r := out[..k] + [x] + out[k..]; Increasing(r) && forall s :: s in r <==> s in out || s == x
  {
    assert out == out[..k] + out[k..];
  }

  /** The claimable slugs: the sorted listing of the exposed set, whatever order the map yields its keys in. */
  method ExposedGroupSlugs(d: Decision) returns (out: seq<string>)
    ensures Lists(out, d)
  {
    var seen: set<string> := {};
    if d.source.SourceManualAllow? {
      seen := CollectExposed(d.manualGroups, seen);
    }
    seen := CollectExposed(d.matchingRuleGroups, seen);
    var keys: seq<string> := [];
    var rest := seen;
    while rest != {}
      invariant rest <= seen
      invariant forall s :: s in keys <==> s in seen - rest
      invariant forall i, j :: 0 <= i < j < |keys| ==> keys[i] != keys[j]
      decreases rest
    {
      var slug :| slug in rest;
      assert slug !in keys;
      keys := keys + [slug];
      rest := rest - {slug};
    }
    out := SortStrings(keys);
  }

  method CollectExposed(groups: seq<GroupMatch>, start: set<string>) returns (seen: set<string>)
    ensures seen == start + set g | g in groups && g.exposed :: g.slug
  {
    seen := start;
    for i := 0 to |groups|
      invariant seen == start + set g | g in groups[..i] && g.exposed :: g.slug
    {
      assert groups[..i + 1] == groups[..i] + [groups[i]];
      if groups[i].exposed {
        seen := seen + {groups[i].slug};
      }
    }
    assert groups[..|groups|] == groups;
  }

  /** After a group decision, exposure is read off the inputs. */
  lemma ExposedAfterDecision(restricted: bool, manual: seq<GroupMatch>, rules: seq<GroupMatch>)
    ensures var d := Decided(restricted, manual, rules);
      var claimed := restricted && manual != [] && forall g :: g in manual ==> g.matched;
      forall s :: s in ExposedSet(d) <==>
        || (exists g :: g in rules && g.matched && g.exposed && g.slug == s)
        || (claimed && exists g :: g in manual && g.exposed && g.slug == s)
  {
  }

  /** A listing of exactly the slugs the decision exposes, as the method returns it. */
  ghost predicate Lists(out: seq<string>, d: Decision) {
    Increasing(out) && forall s :: s in out <==> s in ExposedSet(d)
  }

  /** The returned listing itself does not depend on the order or repetition of the inputs. */
  lemma ListingIsTheSame(restricted: bool, m: seq<GroupMatch>, m': seq<GroupMatch>, r: seq<GroupMatch>, r': seq<GroupMatch>,
                         out: seq<string>, out': seq<string>)
    requires SameMembers(m, m') && SameMembers(r, r')
    requires Lists(out, Decided(restricted, m, r)) && Lists(out', Decided(restricted, m', r'))
    ensures out == out'
  {
    OrderAndRepetitionIrrelevant(restricted, m, m', r, r');
    IncreasingIsUnique(out, out');
  }
}
