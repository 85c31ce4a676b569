/** What the explanation tree of an accepted rule says, and what a rule's meaning depends on. */
module EvaluateLaws {
  import opened Wrappers
  import opened Paths
  import opened Rules
  import opened RuleLaws
  import opened Evaluate

  // ------------------------------------------------------- the explanation

  /** All nodes of an explanation, in document order. */
  function Outline(e: Explanation): seq<Explanation>
    decreases e, 0
  {
    [e] + OutlineUpTo(e.children, |e.children|)
  }

  function OutlineUpTo(es: seq<Explanation>, k: nat): seq<Explanation>
    requires k <= |es|
    decreases es, k
  {
    if k == 0 then [] else OutlineUpTo(es, k - 1) + Outline(es[k - 1])
  }

  ghost predicate MirrorsOne(e: Explanation, v: Visit, facts: Facts, root: string) {
    && e.path == Render(root, v.at)
    && e.result == Holds(ToCondition(v.node), facts)
    && e.caption == ConditionLabel(ToCondition(v.node))
  }

  /** Explanation nodes stand one for one for the listed rule nodes, under the same steps. */
  ghost predicate Mirrors(es: seq<Explanation>, vs: seq<Visit>, facts: Facts, root: string) {
    |es| == |vs| && forall i :: 0 <= i < |vs| ==> MirrorsOne(es[i], vs[i], facts, root)
  }

  lemma MirrorsAppend(a: seq<Explanation>, x: seq<Visit>, b: seq<Explanation>, y: seq<Visit>, facts: Facts, root: string)
    requires Mirrors(a, x, facts, root) && Mirrors(b, y, facts, root)
    ensures Mirrors(a + b, x + y, facts, root)
  {
  }

  lemma {:induction false} ExplainMirrors(w: ConditionWire, providers: set<string>, facts: Facts, root: string, at: seq<Step>,
                                          depth: nat, underNot: bool)
    requires Grammar(w, providers)
    ensures Mirrors(Outline(Explain(ToCondition(w), facts, Render(root, at))), Preorder(w, at, depth, underNot), facts, root)
    decreases w, 0
  {
    var e, v := Explain(ToCondition(w), facts, Render(root, at)), Visit(w, at, depth, underNot);
    assert Mirrors([e], [v], facts, root);
    if AllOrAny(w) {
      ListShape(w, facts, root, at, depth, underNot);
      var list := w.children.v.list;
      GrammarUpToIff(list, |list|, providers);
      ExplainListMirrors(list, |list|, providers, facts, root, at, depth + 1);
      MirrorsAppend([e], [v], OutlineUpTo(ExplainUpTo(ToConditions(list), |list|, facts, Render(root, at)), |list|),
                    PreorderUpTo(list, |list|, at, depth + 1), facts, root);
    } else if Negation(w) {
      NegationPreorder(w, at, depth, underNot);
      NegationOutline(w, facts, root, at);
      ExplainMirrors(w.child.v, providers, facts, root, at + [TheChild], depth + 1, true);
      MirrorsAppend([e], [v], Outline(Explain(ToCondition(w.child.v), facts, Render(root, at + [TheChild]))),
                    Preorder(w.child.v, at + [TheChild], depth + 1, true), facts, root);
    } else {
      assert Outline(e) == [e] && Preorder(w, at, depth, underNot) == [v];
    }
  }

  lemma ListShape(w: ConditionWire, facts: Facts, root: string, at: seq<Step>, depth: nat, underNot: bool)
    requires AllOrAny(w)
    ensures var list, e := w.children.v.list, Explain(ToCondition(w), facts, Render(root, at));
      && Outline(e) == [e] + OutlineUpTo(ExplainUpTo(ToConditions(list), |list|, facts, Render(root, at)), |list|)
      && Preorder(w, at, depth, underNot) == [Visit(w, at, depth, underNot)] + PreorderUpTo(list, |list|, at, depth + 1)
  {
  }

  lemma NegationPreorder(w: ConditionWire, at: seq<Step>, depth: nat, underNot: bool)
    requires Negation(w)
    ensures Preorder(w, at, depth, underNot) ==
            [Visit(w, at, depth, underNot)] + Preorder(w.child.v, at + [TheChild], depth + 1, true)
  {
  }

  lemma NegationOutline(w: ConditionWire, facts: Facts, root: string, at: seq<Step>)
    requires Negation(w)
    ensures var e := Explain(ToCondition(w), facts, Render(root, at));
      Outline(e) == [e] + Outline(Explain(ToCondition(w.child.v), facts, Render(root, at + [TheChild])))
  {
    RenderMore(root, at, TheChild);
    OutlineOfOne(Explain(ToCondition(w), facts, Render(root, at)));
  }

  lemma OutlineOfOne(e: Explanation)
    requires |e.children| == 1
    ensures Outline(e) == [e] + Outline(e.children[0])
  {
    assert OutlineUpTo(e.children, 0) == [];
    assert OutlineUpTo(e.children, 1) == Outline(e.children[0]);
  }

  lemma {:induction false} ExplainListMirrors(list: seq<ConditionWire>, k: nat, providers: set<string>, facts: Facts,
                                              root: string, at: seq<Step>, depth: nat)
    requires k <= |list| && GrammarUpTo(list, k, providers)
    ensures var es := ExplainUpTo(ToConditions(list), |list|, facts, Render(root, at));
      Mirrors(OutlineUpTo(es, k), PreorderUpTo(list, k, at, depth), facts, root)
    decreases list, k
  {
    if k > 0 {
      var es := ExplainUpTo(ToConditions(list), |list|, facts, Render(root, at));
      ExplainListMirrors(list, k - 1, providers, facts, root, at, depth);
      ExplainMirrors(list[k - 1], providers, facts, root, at + [ChildAt(k - 1)], depth, false);
      ChildExplained(list, k - 1, facts, root, at);
      MirrorsAppend(OutlineUpTo(es, k - 1), PreorderUpTo(list, k - 1, at, depth),
                    Outline(es[k - 1]), Preorder(list[k - 1], at + [ChildAt(k - 1)], depth, false), facts, root);
    }
  }

  lemma ChildExplained(list: seq<ConditionWire>, i: nat, facts: Facts, root: string, at: seq<Step>)
    requires i < |list|
    ensures ExplainUpTo(ToConditions(list), |list|, facts, Render(root, at))[i] ==
            Explain(ToCondition(list[i]), facts, Render(root, at + [ChildAt(i)]))
  {
    RenderMore(root, at, ChildAt(i));
    ToConditionsAt(list, i);
    ExplainAt(ToConditions(list), |list|, i, facts, Render(root, at));
  }

  /**
   The explanation of an accepted rule lists exactly the rule's nodes in order: each result is
   that node's Boolean meaning, each path is the validator's with "$" for "$.condition", and
   no two paths are equal.
   */
  lemma ExplanationIsComplete(doc: RuleWire, providers: set<string>, facts: Facts)
    requires Parsed(doc, providers).Ok?
    ensures var vs := Preorder(doc.condition.v, [], 1, false);
      var es := Outline(Explain(Parsed(doc, providers).value.condition, facts, "$"));
      && Mirrors(es, vs, facts, "$") && |es| == Size(doc.condition.v)
      && Listing(doc.condition.v, [], vs)
      && (forall at :: Resolve(doc.condition.v, at).Some? ==> Listed(vs, at))
      && forall i, j :: 0 <= i < j < |es| ==> es[i].path != es[j].path
  {
    AcceptsExactlyAdmissible(doc, providers);
    ExplainMirrors(doc.condition.v, providers, facts, "$", [], 1, false);
    PreorderLists(doc.condition.v, doc.condition.v, [], 1, false);
    AllListed(doc.condition.v);
    var vs := Preorder(doc.condition.v, [], 1, false);
    var es := Outline(Explain(Parsed(doc, providers).value.condition, facts, "$"));
    forall i, j | 0 <= i < j < |es|
      ensures es[i].path != es[j].path
    {
      assert MirrorsOne(es[i], vs[i], facts, "$") && MirrorsOne(es[j], vs[j], facts, "$");
      PathsDiffer(doc.condition.v, vs, "$", i);
    }
  }

  // ------------------------------------------------------- what a rule depends on

  /** What each accepted leaf asks of the account. */
  lemma LeafMeanings(w: ConditionWire, providers: set<string>, facts: Facts)
    requires FactLeaf(w, providers)
    ensures Holds(ToCondition(w), facts) <==>
            || (w.provider.Value? && w.provider.v in facts.providers)
            || (w.protocol.Value? && w.protocol.v in facts.protocols)
            || (w.loginMethod == Value(Passkey) && facts.hasPasskey)
            || (w.loginMethod == Value(PasswordTotp) && facts.hasPasswordTotp)
            || (w.loginMethod == Value(Federation) && facts.hasFederation)
            || (w.source == Value(AnySource) && facts.hasAnyAvatar)
            || (w.source == Value(UserUploaded) && facts.hasUserAvatar)
  {
  }

  /** Two accounts give every fact leaf of the condition the same value. */
  predicate SameLeaves(c: Condition, f: Facts, g: Facts)
    decreases c
  {
    match c.op
    case OtherOp(_) => EvaluateFact(c, f) == EvaluateFact(c, g)
    case Not => c.child.Some? ==> SameLeaves(c.child.value, f, g)
    case _ => forall i :: 0 <= i < |c.children| ==> SameLeaves(c.children[i], f, g)
  }

  /** The meaning of any condition depends only on the values of its leaves. */
  lemma {:induction false} OnlyLeavesMatter(c: Condition, f: Facts, g: Facts)
    requires SameLeaves(c, f, g)
    ensures Holds(c, f) == Holds(c, g)
    decreases c
  {
    match c.op
    case OtherOp(_) =>
    case Not =>
      if c.child.Some? {
        OnlyLeavesMatter(c.child.value, f, g);
      }
    case _ =>
      forall i | 0 <= i < |c.children|
        ensures Holds(c.children[i], f) == Holds(c.children[i], g)
      {
        OnlyLeavesMatter(c.children[i], f, g);
      }
  }

  // ------------------------------------------------------- monotonicity

  /** Negation only ever stands directly over a fact leaf. */
  predicate NegationNormal(c: Condition)
    decreases c
  {
    match c.op
    case OtherOp(_) => true
    case Not => c.child.Some? && c.child.value.op == NO_OP
    case _ => forall i :: 0 <= i < |c.children| ==> NegationNormal(c.children[i])
  }

  /** Every account fact of `f` is also one of `g`. */
  predicate Grows(f: Facts, g: Facts) {
    && f.providers <= g.providers && f.protocols <= g.protocols
    && (f.hasPasskey ==> g.hasPasskey) && (f.hasPasswordTotp ==> g.hasPasswordTotp)
    && (f.hasFederation ==> g.hasFederation) && (f.hasAnyAvatar ==> g.hasAnyAvatar)
    && (f.hasUserAvatar ==> g.hasUserAvatar)
  }

  /** The two accounts agree on every leaf under a `not`. */
  predicate NegatedLeavesAgree(c: Condition, f: Facts, g: Facts)
    decreases c
  {
    match c.op
    case OtherOp(_) => true
    case Not => c.child.Some? ==> EvaluateFact(c.child.value, f) == EvaluateFact(c.child.value, g)
    case _ => forall i :: 0 <= i < |c.children| ==> NegatedLeavesAgree(c.children[i], f, g)
  }

  predicate NotFree(c: Condition)
    decreases c
  {
    c.op != Not && forall i :: 0 <= i < |c.children| ==> NotFree(c.children[i])
  }

  lemma {:induction false} AcceptedIsNegationNormal(w: ConditionWire, providers: set<string>)
    requires Grammar(w, providers)
    ensures NegationNormal(ToCondition(w))
    decreases w
  {
    if AllOrAny(w) {
      var list := w.children.v.list;
      forall i | 0 <= i < |list|
        ensures NegationNormal(ToConditions(list)[i])
      {
        ToConditionsAt(list, i);
        AcceptedIsNegationNormal(list[i], providers);
      }
    }
  }

  lemma {:induction false} Monotone(c: Condition, f: Facts, g: Facts)
    requires NegationNormal(c) && Grows(f, g) && NegatedLeavesAgree(c, f, g) && Holds(c, f)
    ensures Holds(c, g)
    decreases c
  {
    match c.op
    case OtherOp(_) =>
    case Not =>
    case All =>
      forall i | 0 <= i < |c.children|
        ensures Holds(c.children[i], g)
      {
        Monotone(c.children[i], f, g);
      }
    case Any =>
      var i :| 0 <= i < |c.children| && Holds(c.children[i], f);
      Monotone(c.children[i], f, g);
  }

  lemma {:induction false} NotFreeAgrees(c: Condition, f: Facts, g: Facts)
    requires NotFree(c)
    ensures NegatedLeavesAgree(c, f, g) && NegationNormal(c)
    decreases c
  {
    forall i | 0 <= i < |c.children|
      ensures NegatedLeavesAgree(c.children[i], f, g) && NegationNormal(c.children[i])
    {
      NotFreeAgrees(c.children[i], f, g);
    }
  }

  /** An accepted rule that held keeps holding while facts only grow, unless a negated leaf changes. */
  lemma AcceptedRuleIsMonotone(doc: RuleWire, providers: set<string>, f: Facts, g: Facts)
    requires Parsed(doc, providers).Ok? && Grows(f, g)
    ensures var c := Parsed(doc, providers).value.condition;
      NegationNormal(c) && (Holds(c, f) && (NotFree(c) || NegatedLeavesAgree(c, f, g)) ==> Holds(c, g))
  {
    AcceptsExactlyAdmissible(doc, providers);
    AcceptedIsNegationNormal(doc.condition.v, providers);
    var c := Parsed(doc, providers).value.condition;
    if NotFree(c) {
      NotFreeAgrees(c, f, g);
    }
    if Holds(c, f) && NegatedLeavesAgree(c, f, g) {
      Monotone(c, f, g);
    }
  }
}
