/**
 Account facts and the evaluator that explains a rule node by node. The
 explanation's results are proved to be the plain Boolean meaning of the rule.
 */
module Evaluate {
  import opened Wrappers
  import opened Paths
  import opened Rules

  datatype Facts = Facts(
    providers: set<string>,
    protocols: set<ProtocolName>,
    hasPasskey: bool,
    hasPasswordTotp: bool,
    hasFederation: bool,
    hasAnyAvatar: bool,
    hasUserAvatar: bool)

  // ------------------------------------------------------------ account facts

  /** The columns of a live access-fact row that decide an account's facts. */
  datatype FactsRow = FactsRow(
    accountId: int,
    disabled: bool,
    hasPasskey: bool,
    hasPasswordTotp: bool,
    hasFederation: bool,
    providerSlugs: seq<string>,
    protocols: seq<ProtocolName>,
    hasAnyAvatar: bool,
    hasUserAvatar: bool)

  datatype FactsError = AccountDisabled(accountId: int)

  function Elements<T>(values: seq<T>): set<T> {
    set v | v in values
  }

  method StringSet<T(==)>(values: seq<T>) returns (s: set<T>)
    ensures s == Elements(values)
  {
    s := {};
    for i := 0 to |values|
      invariant s == Elements(values[..i])
    {
      assert values[..i + 1] == values[..i] + [values[i]];
      s := s + {values[i]};
    }
    assert values[..|values|] == values;
  }

  function RowFacts(row: FactsRow): Result<Facts, FactsError> {
    if row.disabled then Err(AccountDisabled(row.accountId))
    else Ok(Facts(Elements(row.providerSlugs), Elements(row.protocols), row.hasPasskey, row.hasPasswordTotp,
                  row.hasFederation, row.hasAnyAvatar, row.hasUserAvatar))
  }

  method FactsFromValues(row: FactsRow) returns (r: Result<Facts, FactsError>)
    ensures r == RowFacts(row)
    ensures r.Err? <==> row.disabled
    ensures r.Err? ==> r.error == AccountDisabled(row.accountId)
    ensures r.Ok? ==> var f := r.value;
              && (forall s :: s in f.providers <==> s in row.providerSlugs)
              && (forall p :: p in f.protocols <==> p in row.protocols)
              && f.hasPasskey == row.hasPasskey && f.hasPasswordTotp == row.hasPasswordTotp
              && f.hasFederation == row.hasFederation && f.hasAnyAvatar == row.hasAnyAvatar
              && f.hasUserAvatar == row.hasUserAvatar
  {
    if row.disabled {
      return Err(AccountDisabled(row.accountId));
    }
    var providers := StringSet(row.providerSlugs);
    var protocols := StringSet(row.protocols);
    return Ok(Facts(providers, protocols, row.hasPasskey, row.hasPasswordTotp, row.hasFederation,
                    row.hasAnyAvatar, row.hasUserAvatar));
  }

  // ------------------------------------------------------------ evaluation

  datatype Explanation = Explanation(path: string, caption: Label, result: bool, children: seq<Explanation>)

  /** The text "op", "fact=parameter" or "fact", kept as its parts. */
  datatype Label =
    | OpLabel(op: OpName)
    | ProviderLabel(provider: string)
    | ProtocolLabel(protocol: ProtocolName)
    | MethodLabel(loginMethod: MethodName)
    | SourceLabel(source: SourceName)
    | FactLabel(fact: FactName)

  function ConditionLabel(c: Condition): Label {
    if c.op != NO_OP then OpLabel(c.op)
    else
      match c.fact
      case ConnectionProvider => ProviderLabel(c.provider)
      case ConnectionProtocol => ProtocolLabel(c.protocol)
      case LoginMethod => MethodLabel(c.loginMethod)
      case Avatar => SourceLabel(c.source)
      case OtherFact(_) => FactLabel(c.fact)
  }

  function EvaluateFact(c: Condition, facts: Facts): bool {
    match c.fact
    case ConnectionProvider => c.provider in facts.providers
    case ConnectionProtocol => !c.protocol.OtherProtocol? && c.protocol in facts.protocols
    case LoginMethod =>
      (match c.loginMethod
       case Passkey => facts.hasPasskey
       case PasswordTotp => facts.hasPasswordTotp
       case Federation => facts.hasFederation
       case OtherMethod(_) => false)
    case Avatar =>
      (match c.source
       case AnySource => facts.hasAnyAvatar
       case UserUploaded => facts.hasUserAvatar
       case OtherSource(_) => false)
    case OtherFact(_) => false
  }

  /** The plain Boolean meaning of a condition. */
  predicate Holds(c: Condition, facts: Facts)
    decreases c
  {
    match c.op
    case All => forall i :: 0 <= i < |c.children| ==> Holds(c.children[i], facts)
    case Any => exists i :: 0 <= i < |c.children| && Holds(c.children[i], facts)
    case Not => c.child.Some? && !Holds(c.child.value, facts)
    case OtherOp(_) => c.op == NO_OP && EvaluateFact(c, facts)
  }

  /** The explanation tree, each node carrying its own meaning. */
  function Explain(c: Condition, facts: Facts, path: string): Explanation
    decreases c, 0
  {
    Explanation(path, ConditionLabel(c), Holds(c, facts),
      match c.op
      case All => ExplainUpTo(c.children, |c.children|, facts, path)
      case Any => ExplainUpTo(c.children, |c.children|, facts, path)
      case Not => if c.child.None? then [] else [Explain(c.child.value, facts, Extend(path, TheChild))]
      case OtherOp(_) => [])
  }

  function ExplainUpTo(cs: seq<Condition>, k: nat, facts: Facts, path: string): (es: seq<Explanation>)
    requires k <= |cs|
    ensures |es| == k
    decreases cs, k
  {
    if k == 0 then []
    else ExplainUpTo(cs, k - 1, facts, path) + [Explain(cs[k - 1], facts, Extend(path, ChildAt(k - 1)))]
  }

  // ------------------------------------------------------------ how a result follows

  /** The account has what a fact leaf asks for. */
  predicate Has(c: Condition, facts: Facts) {
    || (c.fact == ConnectionProvider && c.provider in facts.providers)
    || (c.fact == ConnectionProtocol && c.protocol in facts.protocols && c.protocol in {Oidc, Steam, Vrchat})
    || (c.fact == LoginMethod && c.loginMethod == Passkey && facts.hasPasskey)
    || (c.fact == LoginMethod && c.loginMethod == PasswordTotp && facts.hasPasswordTotp)
    || (c.fact == LoginMethod && c.loginMethod == Federation && facts.hasFederation)
    || (c.fact == Avatar && c.source == AnySource && facts.hasAnyAvatar)
    || (c.fact == Avatar && c.source == UserUploaded && facts.hasUserAvatar)
  }

  /** The caption says which condition the node explains. */
  predicate Captioned(caption: Label, c: Condition) {
    match caption
    case OpLabel(op) => c.op == op && op != NO_OP
    case ProviderLabel(p) => c.op == NO_OP && c.fact == ConnectionProvider && c.provider == p
    case ProtocolLabel(p) => c.op == NO_OP && c.fact == ConnectionProtocol && c.protocol == p
    case MethodLabel(m) => c.op == NO_OP && c.fact == LoginMethod && c.loginMethod == m
    case SourceLabel(s) => c.op == NO_OP && c.fact == Avatar && c.source == s
    case FactLabel(f) => c.op == NO_OP && c.fact == f && f.OtherFact?
  }

  /** One node's result follows from its child entries' results, or from the account at a leaf. */
  ghost predicate Follows(e: Explanation, c: Condition, facts: Facts) {
    && Captioned(e.caption, c)
    && match c.op
       case All => |e.children| == |c.children| && (e.result <==> forall i :: 0 <= i < |e.children| ==> e.children[i].result)
       case Any => |e.children| == |c.children| && (e.result <==> exists i :: 0 <= i < |e.children| && e.children[i].result)
       case Not =>
         if c.child.None? then e.children == [] && !e.result
         else |e.children| == 1 && e.result == !e.children[0].result
       case OtherOp(text) => e.children == [] && (e.result <==> text == "" && Has(c, facts))
  }

  /** Every node of the tree follows from those below it, down to the leaves. */
  ghost predicate Derived(e: Explanation, c: Condition, facts: Facts)
    decreases c
  {
    && Follows(e, c, facts)
    && ((c.op == All || c.op == Any) ==>
          forall i :: 0 <= i < |c.children| ==> Derived(e.children[i], c.children[i], facts))
    && (c.op == Not && c.child.Some? ==> Derived(e.children[0], c.child.value, facts))
  }

  /** The evaluator, which derives each result from the results below it. */
  method EvaluateCondition(c: Condition, facts: Facts, path: string) returns (e: Explanation)
    ensures e == Explain(c, facts, path)
    ensures Derived(e, c, facts)
    decreases c, 1
  {
    ExplainIsDerived(c, facts, path);
    var result := false;
    var children: seq<Explanation> := [];
    match c.op {
      case All =>
        children, result := EvaluateAll(c.children, facts, path);
      case Any =>
        children, result := EvaluateAny(c.children, facts, path);
      case Not =>
        if c.child.Some? {
          var child := EvaluateCondition(c.child.value, facts, path + ".child");
          children := [child];
          result := !child.result;
        }
      case OtherOp(text) =>
        if text == "" {
          result := EvaluateFact(c, facts);
        }
    }
    e := Explanation(path, ConditionLabel(c), result, children);
  }

  /** The loop of an `all` node: every child is explained, even after one fails. */
  method EvaluateAll(cs: seq<Condition>, facts: Facts, path: string) returns (es: seq<Explanation>, result: bool)
    ensures es == ExplainUpTo(cs, |cs|, facts, path)
    ensures result <==> forall i :: 0 <= i < |cs| ==> Holds(cs[i], facts)
    decreases cs, 0
  {
    es, result := [], true;
    for i := 0 to |cs|
      invariant es == ExplainUpTo(cs, i, facts, path)
      invariant result <==> forall j :: 0 <= j < i ==> Holds(cs[j], facts)
    {
      var child := EvaluateCondition(cs[i], facts, ChildPath(path, i));
      es := es + [child];
      if !child.result {
        result := false;
      }
    }
  }

  /** The loop of an `any` node: every child is explained, even after one holds. */
  method EvaluateAny(cs: seq<Condition>, facts: Facts, path: string) returns (es: seq<Explanation>, result: bool)
    ensures es == ExplainUpTo(cs, |cs|, facts, path)
    ensures result <==> exists i :: 0 <= i < |cs| && Holds(cs[i], facts)
    decreases cs, 0
  {
    es, result := [], false;
    for i := 0 to |cs|
      invariant es == ExplainUpTo(cs, i, facts, path)
      invariant result <==> exists j :: 0 <= j < i && Holds(cs[j], facts)
    {
      var child := EvaluateCondition(cs[i], facts, ChildPath(path, i));
      es := es + [child];
      if child.result {
        result := true;
      }
    }
  }

  lemma {:induction false} ExplainAt(cs: seq<Condition>, k: nat, i: nat, facts: Facts, path: string)
    requires i < k <= |cs|
    ensures ExplainUpTo(cs, k, facts, path)[i] == Explain(cs[i], facts, Extend(path, ChildAt(i)))
  {
    var front, last := ExplainUpTo(cs, k - 1, facts, path), Explain(cs[k - 1], facts, Extend(path, ChildAt(k - 1)));
    assert ExplainUpTo(cs, k, facts, path) == front + [last];
    if i < k - 1 {
      ExplainAt(cs, k - 1, i, facts, path);
    }
  }

  lemma {:induction false} ExplainIsDerived(c: Condition, facts: Facts, path: string)
    ensures Derived(Explain(c, facts, path), c, facts)
    decreases c
  {
    var e := Explain(c, facts, path);
    if c.op == All || c.op == Any {
      forall i | 0 <= i < |c.children|
        ensures e.children[i].result == Holds(c.children[i], facts) && Derived(e.children[i], c.children[i], facts)
      {
        ExplainAt(c.children, |c.children|, i, facts, path);
        ExplainIsDerived(c.children[i], facts, Extend(path, ChildAt(i)));
      }
    } else if c.op == Not && c.child.Some? {
      ExplainIsDerived(c.child.value, facts, Extend(path, TheChild));
    }
  }
}
