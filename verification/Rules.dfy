/**
 The group-rule language: the decoded wire form, the bounded validator, and the
 canonical re-encoding. Validation is stated against a reference that lists every
 node of the submitted tree in document order and looks for the first offence.
 */
module Rules {
  import opened Wrappers
  import opened Paths

  const MAX_DEPTH: nat := 8
  const MAX_NODES: nat := 64
  const MAX_CHILDREN: nat := 32

  // The names the language knows, and every other text a document may hold in their place.
  datatype OpName = All | Any | Not | OtherOp(text: string)
  datatype FactName = ConnectionProvider | ConnectionProtocol | LoginMethod | Avatar | OtherFact(text: string)
  datatype ProtocolName = Oidc | Steam | Vrchat | OtherProtocol(text: string)
  datatype MethodName = Passkey | PasswordTotp | Federation | OtherMethod(text: string)
  datatype SourceName = AnySource | UserUploaded | OtherSource(text: string)

  /** A JSON member: left out, explicitly null, or a value. */
  datatype Field<+T> = Absent | Null | Value(v: T) {
    predicate Present() {
      !Absent?
    }
  }

  datatype ConditionsWire = ConditionsWire(list: seq<ConditionWire>)

  datatype ConditionWire = ConditionWire(
    op: Field<OpName>,
    children: Field<ConditionsWire>,
    child: Field<ConditionWire>,
    fact: Field<FactName>,
    provider: Field<string>,
    protocol: Field<ProtocolName>,
    loginMethod: Field<MethodName>,
    source: Field<SourceName>)
  {
    predicate HasNull() {
      op.Null? || children.Null? || child.Null? || fact.Null? ||
      provider.Null? || protocol.Null? || loginMethod.Null? || source.Null?
    }
  }

  datatype RuleWire = RuleWire(version: Field<int>, condition: Field<ConditionWire>)

  /** A combinator node or a fact leaf; a member that does not apply holds the empty text. */
  datatype Condition = Condition(
    op: OpName,
    children: seq<Condition>,
    child: Option<Condition>,
    fact: FactName,
    provider: string,
    protocol: ProtocolName,
    loginMethod: MethodName,
    source: SourceName)

  // The empty text, read as a name of each kind.
  const NO_OP := OtherOp("")
  const NO_FACT := OtherFact("")
  const NO_PROTOCOL := OtherProtocol("")
  const NO_METHOD := OtherMethod("")
  const NO_SOURCE := OtherSource("")

  datatype Rule = Rule(version: int, condition: Condition)

  datatype Reason =
    | MissingVersion | UnsupportedVersion | MissingCondition
    | MaxDepthExceeded | MaxNodesExceeded | InvalidShape | InvalidOp
    | MissingChildren | EmptyChildren | MaxChildrenExceeded | MissingChild | NotRequiresFact
    | InvalidFact | MissingProvider | ProviderNotFound | InvalidProtocol | InvalidMethod | InvalidSource

  datatype RuleError = RuleError(path: string, reason: Reason)

  predicate CombinatorOp(op: Field<OpName>) {
    op.Value? && !op.v.OtherOp?
  }

  // ------------------------------------------------------- the grammar

  const BLANK := ConditionWire(Absent, Absent, Absent, Absent, Absent, Absent, Absent, Absent)

  /** A fact leaf carries its fact, that fact's one parameter, and nothing else. */
  predicate FactLeaf(w: ConditionWire, providers: set<string>) {
    || (w.provider.Value? && w.provider.v != "" && w.provider.v in providers
        && w == BLANK.(fact := Value(ConnectionProvider), provider := w.provider))
    || (w.protocol.Value? && !w.protocol.v.OtherProtocol?
        && w == BLANK.(fact := Value(ConnectionProtocol), protocol := w.protocol))
    || (w.loginMethod.Value? && !w.loginMethod.v.OtherMethod?
        && w == BLANK.(fact := Value(LoginMethod), loginMethod := w.loginMethod))
    || (w.source.Value? && !w.source.v.OtherSource?
        && w == BLANK.(fact := Value(Avatar), source := w.source))
  }

  predicate AllOrAny(w: ConditionWire) {
    && w.op.Value? && (w.op.v == All || w.op.v == Any)
    && w.children.Value? && 1 <= |w.children.v.list| <= MAX_CHILDREN
    && w == BLANK.(op := w.op, children := w.children)
  }

  predicate Negation(w: ConditionWire) {
    w.child.Value? && w == BLANK.(op := Value(Not), child := w.child)
  }

  /** The trees the language admits, bounds aside. */
  predicate Grammar(w: ConditionWire, providers: set<string>) {
    || FactLeaf(w, providers)
    || (AllOrAny(w) && forall i :: 0 <= i < |w.children.v.list| ==> Grammar(w.children.v.list[i], providers))
    || (Negation(w) && FactLeaf(w.child.v, providers))
  }

  function Size(w: ConditionWire): nat
    decreases w, 0
  {
    1 + (if w.children.Value? then SizeUpTo(w.children.v.list, |w.children.v.list|) else 0)
    + (if w.child.Value? then Size(w.child.v) else 0)
  }

  function SizeUpTo(ws: seq<ConditionWire>, k: nat): nat
    requires k <= |ws|
    decreases ws, k
  {
    if k == 0 then 0 else SizeUpTo(ws, k - 1) + Size(ws[k - 1])
  }

  function Max(a: nat, b: nat): nat {
    if a < b then b else a
  }

  function Height(w: ConditionWire): nat
    decreases w, 0
  {
    1 + Max(if w.children.Value? then HeightUpTo(w.children.v.list, |w.children.v.list|) else 0,
            if w.child.Value? then Height(w.child.v) else 0)
  }

  function HeightUpTo(ws: seq<ConditionWire>, k: nat): nat
    requires k <= |ws|
    decreases ws, k
  {
    if k == 0 then 0 else Max(HeightUpTo(ws, k - 1), Height(ws[k - 1]))
  }

  /** What a rule document must be, stated without any traversal order. */
  predicate Admissible(w: ConditionWire, providers: set<string>) {
    Grammar(w, providers) && Height(w) <= MAX_DEPTH && Size(w) <= MAX_NODES
  }

  // -------------------------------------------- offences in document order

  /** One node of the submitted tree, with where it stands. */
  datatype Visit = Visit(node: ConditionWire, at: seq<Step>, depth: nat, underNot: bool)

  datatype Finding = Finding(at: seq<Step>, reason: Reason)

  function Preorder(w: ConditionWire, at: seq<Step>, depth: nat, underNot: bool): (vs: seq<Visit>)
    ensures |vs| == Size(w) && vs[0] == Visit(w, at, depth, underNot)
    decreases w, 0
  {
    [Visit(w, at, depth, underNot)]
    + (if w.children.Value? then PreorderUpTo(w.children.v.list, |w.children.v.list|, at, depth + 1) else [])
    + (if w.child.Value? then Preorder(w.child.v, at + [TheChild], depth + 1, w.op == Value(Not)) else [])
  }

  function PreorderUpTo(ws: seq<ConditionWire>, k: nat, at: seq<Step>, depth: nat): (vs: seq<Visit>)
    requires k <= |ws|
    ensures |vs| == SizeUpTo(ws, k)
    decreases ws, k
  {
    if k == 0 then []
    else PreorderUpTo(ws, k - 1, at, depth) + Preorder(ws[k - 1], at + [ChildAt(k - 1)], depth, false)
  }

  /** The checks on an operator node whose members are not null, all made before any child is visited. */
  function CombinatorError(w: ConditionWire): Option<Reason> {
    if w.fact.Present() || w.provider.Present() || w.protocol.Present() || w.loginMethod.Present() || w.source.Present()
    then Some(InvalidShape)
    else if w.op == Value(All) || w.op == Value(Any) then
      if w.child.Present() then Some(InvalidShape)
      else if !w.children.Value? then Some(MissingChildren)
      else if |w.children.v.list| == 0 then Some(EmptyChildren)
      else if |w.children.v.list| > MAX_CHILDREN then Some(MaxChildrenExceeded)
      else None
    else if w.op == Value(Not) then
      if w.children.Present() then Some(InvalidShape)
      else if !w.child.Value? then Some(MissingChild)
      else None
    else Some(InvalidOp)
  }

  /** The checks on a fact leaf whose members are not null. */
  function FactError(w: ConditionWire, providers: set<string>): Option<Reason> {
    if w.children.Present() || w.child.Present() then Some(InvalidShape)
    else if w.fact == Value(ConnectionProvider) then
      if w.protocol.Present() || w.loginMethod.Present() || w.source.Present() then Some(InvalidShape)
      else if !w.provider.Value? || w.provider.v == "" then Some(MissingProvider)
      else if w.provider.v !in providers then Some(ProviderNotFound)
      else None
    else if w.fact == Value(ConnectionProtocol) then
      if w.provider.Present() || w.loginMethod.Present() || w.source.Present() then Some(InvalidShape)
      else if !w.protocol.Value? || w.protocol.v.OtherProtocol? then Some(InvalidProtocol)
      else None
    else if w.fact == Value(LoginMethod) then
      if w.provider.Present() || w.protocol.Present() || w.source.Present() then Some(InvalidShape)
      else if !w.loginMethod.Value? || w.loginMethod.v.OtherMethod? then Some(InvalidMethod)
      else None
    else if w.fact == Value(Avatar) then
      if w.provider.Present() || w.protocol.Present() || w.loginMethod.Present() then Some(InvalidShape)
      else if !w.source.Value? || w.source.v.OtherSource? then Some(InvalidSource)
      else None
    else Some(InvalidFact)
  }

  /** What is wrong with a node's own members. */
  function ShapeError(w: ConditionWire, providers: set<string>): Option<Reason> {
    if w.HasNull() || w.op.Present() == w.fact.Present() then Some(InvalidShape)
    else if w.op.Present() then CombinatorError(w)
    else FactError(w, providers)
  }

  /** What is wrong with a node that `before` nodes precede. */
  function Offence(v: Visit, before: nat, providers: set<string>): Option<Reason> {
    if v.underNot && CombinatorOp(v.node.op) then Some(NotRequiresFact)
    else if v.depth > MAX_DEPTH then Some(MaxDepthExceeded)
    else if before >= MAX_NODES then Some(MaxNodesExceeded)
    else ShapeError(v.node, providers)
  }

  function Scan(vs: seq<Visit>, before: nat, providers: set<string>): Option<Finding> {
    if vs == [] then None
    else
      match Offence(vs[0], before, providers)
      case Some(reason) => Some(Finding(vs[0].at, reason))
      case None => Scan(vs[1..], before + 1, providers)
  }

  lemma {:induction false} ScanAppend(a: seq<Visit>, b: seq<Visit>, before: nat, providers: set<string>)
    ensures Scan(a + b, before, providers) ==
            if Scan(a, before, providers).Some? then Scan(a, before, providers)
            else Scan(b, before + |a|, providers)
  {
    if a == [] {
      assert a + b == b;
    } else {
      assert (a + b)[1..] == a[1..] + b;
      ScanAppend(a[1..], b, before + 1, providers);
    }
  }

  /** `Scan` reports the first offending entry, and reports nothing only when there is none. */
  lemma {:induction false} ScanFindsFirst(vs: seq<Visit>, before: nat, providers: set<string>) returns (i: nat)
    ensures match Scan(vs, before, providers)
            case None => i == |vs|
            case Some(f) => i < |vs| && Offence(vs[i], before + i, providers) == Some(f.reason) && vs[i].at == f.at
    ensures forall j :: 0 <= j < i ==> Offence(vs[j], before + j, providers).None?
  {
    if vs == [] || Offence(vs[0], before, providers).Some? {
      return 0;
    }
    var rest := vs[1..];
    var k := ScanFindsFirst(rest, before + 1, providers);
    assert forall j :: 1 <= j < |vs| ==> vs[j] == rest[j - 1];
    return k + 1;
  }

  // ---------------------------------------------------- the result and back

  /** A member that carries no value reads as the empty one. */
  function OrEmpty<T>(f: Field<T>, empty: T): T {
    if f.Value? then f.v else empty
  }

  /** The rule a wire tree stands for. */
  function ToCondition(w: ConditionWire): Condition
    decreases w, 0
  {
    Condition(
      OrEmpty(w.op, NO_OP),
      if w.children.Value? then ToConditions(w.children.v.list) else [],
      if w.child.Value? then Some(ToCondition(w.child.v)) else None,
      OrEmpty(w.fact, NO_FACT), OrEmpty(w.provider, ""), OrEmpty(w.protocol, NO_PROTOCOL),
      OrEmpty(w.loginMethod, NO_METHOD), OrEmpty(w.source, NO_SOURCE))
  }

  function ToConditions(ws: seq<ConditionWire>): (cs: seq<Condition>)
    ensures |cs| == |ws|
    decreases ws, 0
  {
    if ws == [] then [] else ToConditions(ws[..|ws| - 1]) + [ToCondition(ws[|ws| - 1])]
  }

  lemma {:induction false} ToConditionsAt(ws: seq<ConditionWire>, i: nat)
    requires i < |ws|
    ensures ToConditions(ws)[i] == ToCondition(ws[i])
  {
    if i < |ws| - 1 {
      ToConditionsAt(ws[..|ws| - 1], i);
    }
  }

  function OmitEmpty<T(==)>(v: T, empty: T): Field<T> {
    if v == empty then Absent else Value(v)
  }

  /** The canonical encoding: members holding their empty value are left out. */
  function Encode(c: Condition): ConditionWire
    decreases c, 0
  {
    ConditionWire(
      OmitEmpty(c.op, NO_OP),
      if c.children == [] then Absent else Value(ConditionsWire(EncodeAll(c.children))),
      if c.child.None? then Absent else Value(Encode(c.child.value)),
      OmitEmpty(c.fact, NO_FACT), OmitEmpty(c.provider, ""), OmitEmpty(c.protocol, NO_PROTOCOL),
      OmitEmpty(c.loginMethod, NO_METHOD), OmitEmpty(c.source, NO_SOURCE))
  }

  function EncodeAll(cs: seq<Condition>): (ws: seq<ConditionWire>)
    ensures |ws| == |cs|
    decreases cs, 0
  {
    if cs == [] then [] else EncodeAll(cs[..|cs| - 1]) + [Encode(cs[|cs| - 1])]
  }

  // ------------------------------------------------------------ validator

  /** The node counter every call of the validator shares. */
  class NodeCounter {
    var count: nat

    constructor ()
      ensures count == 0
    {
      count := 0;
    }
  }

  /** What the reference says of a subtree that `before` nodes precede. */
  ghost predicate Verdict(r: Result<Condition, RuleError>, w: ConditionWire, root: string, vs: seq<Visit>, before: nat,
                          after: nat, providers: set<string>)
  {
    match Scan(vs, before, providers)
    case None => r == Ok(ToCondition(w)) && after == before + Size(w)
    case Some(f) => r == Err(RuleError(Render(root, f.at), f.reason))
  }

  method ValidateCondition(w: ConditionWire, path: string, ghost root: string, ghost at: seq<Step>, depth: nat,
                           nodes: NodeCounter, providers: set<string>) returns (r: Result<Condition, RuleError>)
    requires path == Render(root, at)
    modifies nodes
    ensures Verdict(r, w, root, Preorder(w, at, depth, false), old(nodes.count), nodes.count, providers)
    decreases w, 2
  {
    if depth > MAX_DEPTH {
      return Err(RuleError(path, MaxDepthExceeded));
    }
    nodes.count := nodes.count + 1;
    if nodes.count > MAX_NODES {
      return Err(RuleError(path, MaxNodesExceeded));
    }
    if w.HasNull() {
      return Err(RuleError(path, InvalidShape));
    }
    var hasOp := w.op.Present();
    var hasFact := w.fact.Present();
    if hasOp == hasFact {
      return Err(RuleError(path, InvalidShape));
    }
    if hasOp {
      r := ValidateCombinator(w, path, root, at, depth, nodes, providers);
    } else {
      HeadThenRest(w, at, depth, nodes.count - 1, providers);
      r := ValidateFact(w, path, providers);
    }
  }

  method ValidateCombinator(w: ConditionWire, path: string, ghost root: string, ghost at: seq<Step>, depth: nat,
                            nodes: NodeCounter, providers: set<string>) returns (r: Result<Condition, RuleError>)
    requires !w.HasNull() && w.op.Present() && !w.fact.Present()
    requires depth <= MAX_DEPTH && 1 <= nodes.count <= MAX_NODES
    requires path == Render(root, at)
    modifies nodes
    ensures Verdict(r, w, root, Preorder(w, at, depth, false), old(nodes.count) - 1, nodes.count, providers)
    decreases w, 1
  {
    HeadThenRest(w, at, depth, nodes.count - 1, providers);
    var shape := CombinatorError(w);
    if shape.Some? {
      return Err(RuleError(path, shape.value));
    }
    if w.op.v.Not? {
      r := ValidateNegation(w, path, root, at, depth, nodes, providers);
    } else {
      var children := ValidateChildren(w.children.v.list, path, root, at, depth + 1, nodes, providers);
      if children.Err? {
        return Err(children.error);
      }
      return Ok(Condition(w.op.v, children.value, None, NO_FACT, "", NO_PROTOCOL, NO_METHOD, NO_SOURCE));
    }
  }

  method ValidateNegation(w: ConditionWire, path: string, ghost root: string, ghost at: seq<Step>, depth: nat,
                          nodes: NodeCounter, providers: set<string>) returns (r: Result<Condition, RuleError>)
    requires Negation(w) && path == Render(root, at)
    modifies nodes
    ensures match Scan(Preorder(w.child.v, at + [TheChild], depth + 1, true), old(nodes.count), providers)
            case None => r == Ok(ToCondition(w)) && nodes.count == old(nodes.count) + Size(w.child.v)
            case Some(f) => r == Err(RuleError(Render(root, f.at), f.reason))
    decreases w, 0
  {
    var inner := w.child.v;
    UnderNot(inner, at + [TheChild], depth + 1, nodes.count, providers);
    RenderMore(root, at, TheChild);
    if inner.op.Value? && (inner.op.v.All? || inner.op.v.Any? || inner.op.v.Not?) {
      return Err(RuleError(path + ".child", NotRequiresFact));
    }
    var child := ValidateCondition(inner, path + ".child", root, at + [TheChild], depth + 1, nodes, providers);
    if child.Err? {
      return child;
    }
    return Ok(Condition(Not, [], Some(child.value), NO_FACT, "", NO_PROTOCOL, NO_METHOD, NO_SOURCE));
  }

  /** The loop over the children of an `all` or `any` node. */
  method ValidateChildren(list: seq<ConditionWire>, path: string, ghost root: string, ghost at: seq<Step>, depth: nat,
                          nodes: NodeCounter, providers: set<string>) returns (r: Result<seq<Condition>, RuleError>)
    requires path == Render(root, at)
    modifies nodes
    ensures match Scan(PreorderUpTo(list, |list|, at, depth), old(nodes.count), providers)
            case None => r == Ok(ToConditions(list)) && nodes.count == old(nodes.count) + SizeUpTo(list, |list|)
            case Some(f) => r == Err(RuleError(Render(root, f.at), f.reason))
    decreases list, 0
  {
    ghost var before := nodes.count;
    var children: seq<Condition> := [];
    for i := 0 to |list|
      invariant children == ToConditions(list[..i])
      invariant Scan(PreorderUpTo(list, i, at, depth), before, providers).None?
      invariant nodes.count == before + SizeUpTo(list, i)
    {
      RenderMore(root, at, ChildAt(i));
      var child := ValidateCondition(list[i], ChildPath(path, i), root, at + [ChildAt(i)], depth, nodes, providers);
      ChildVerdict(list, i, root, at, depth, before, nodes.count, child, providers);
      if child.Err? {
        return Err(child.error);
      }
      assert list[..i + 1][..i] == list[..i];
      children := children + [child.value];
    }
    assert list[..|list|] == list;
    r := Ok(children);
  }

  /** A fact leaf is accepted exactly when it has one of the four closed shapes. */
  function ValidateFact(w: ConditionWire, path: string, providers: set<string>): (r: Result<Condition, RuleError>)
    requires !w.HasNull() && w.fact.Present() && !w.op.Present()
    ensures r.Ok? <==> FactLeaf(w, providers)
    ensures r.Ok? ==> r.value == ToCondition(w)
    ensures r.Err? ==> r.error.path == path
  {
    match FactError(w, providers)
    case Some(reason) => Err(RuleError(path, reason))
    case None =>
      Ok(Condition(NO_OP, [], None, w.fact.v, OrEmpty(w.provider, ""), OrEmpty(w.protocol, NO_PROTOCOL),
                   OrEmpty(w.loginMethod, NO_METHOD), OrEmpty(w.source, NO_SOURCE)))
  }

  /** The verdict on one more child extends the verdict on the list. */
  lemma ChildVerdict(list: seq<ConditionWire>, i: nat, root: string, at: seq<Step>, depth: nat, before: nat, after: nat,
                     r: Result<Condition, RuleError>, providers: set<string>)
    requires i < |list| && Scan(PreorderUpTo(list, i, at, depth), before, providers).None?
    requires Verdict(r, list[i], root, Preorder(list[i], at + [ChildAt(i)], depth, false),
                     before + SizeUpTo(list, i), after, providers)
    ensures r.Ok? ==> r.value == ToCondition(list[i]) && after == before + SizeUpTo(list, i + 1)
                      && Scan(PreorderUpTo(list, i + 1, at, depth), before, providers).None?
    ensures r.Err? ==> Scan(PreorderUpTo(list, |list|, at, depth), before, providers).Some?
                       && (var f := Scan(PreorderUpTo(list, |list|, at, depth), before, providers).value;
                           r.error == RuleError(Render(root, f.at), f.reason))
  {
    ScanAppend(PreorderUpTo(list, i, at, depth),
               Preorder(list[i], at + [ChildAt(i)], depth, false), before, providers);
    if r.Err? {
      ScanStops(list, i + 1, |list|, at, depth, before, providers);
    }
  }

  /** An error among the first children is the error of the whole list. */
  lemma {:induction false} ScanStops(list: seq<ConditionWire>, i: nat, k: nat, at: seq<Step>, depth: nat,
                                     before: nat, providers: set<string>)
    requires i <= k <= |list|
    requires Scan(PreorderUpTo(list, i, at, depth), before, providers).Some?
    ensures Scan(PreorderUpTo(list, k, at, depth), before, providers) ==
            Scan(PreorderUpTo(list, i, at, depth), before, providers)
  {
    if i < k {
      ScanStops(list, i, k - 1, at, depth, before, providers);
      ScanAppend(PreorderUpTo(list, k - 1, at, depth),
                 Preorder(list[k - 1], at + [ChildAt(k - 1)], depth, false), before, providers);
    }
  }

  /** A node is judged before its children, and they in order after it. */
  lemma HeadThenRest(w: ConditionWire, at: seq<Step>, depth: nat, before: nat, providers: set<string>)
    requires depth <= MAX_DEPTH && before < MAX_NODES
    ensures Scan(Preorder(w, at, depth, false), before, providers) ==
            match ShapeError(w, providers)
            case Some(reason) => Some(Finding(at, reason))
            case None =>
              if w.children.Value?
              then Scan(PreorderUpTo(w.children.v.list, |w.children.v.list|, at, depth + 1), before + 1, providers)
              else if w.child.Value? then Scan(Preorder(w.child.v, at + [TheChild], depth + 1, true), before + 1, providers)
              else None
  {
    var vs := Preorder(w, at, depth, false);
    assert Offence(vs[0], before, providers) == ShapeError(w, providers);
    if ShapeError(w, providers).None? {
      if w.children.Value? {
        assert vs[1..] == PreorderUpTo(w.children.v.list, |w.children.v.list|, at, depth + 1);
      } else if w.child.Value? {
        assert vs[1..] == Preorder(w.child.v, at + [TheChild], depth + 1, true);
      } else {
        assert vs[1..] == [];
      }
    }
  }

  /** Standing under a `not` bars combinators, before any other check, and changes nothing else. */
  lemma UnderNot(w: ConditionWire, at: seq<Step>, depth: nat, before: nat, providers: set<string>)
    ensures Scan(Preorder(w, at, depth, true), before, providers) ==
            if CombinatorOp(w.op) then Some(Finding(at, NotRequiresFact))
            else Scan(Preorder(w, at, depth, false), before, providers)
  {
    var a, b := Preorder(w, at, depth, true), Preorder(w, at, depth, false);
    assert a[1..] == b[1..];
  }

  /** The reference result for a decoded document. */
  function Parsed(doc: RuleWire, providers: set<string>): Result<Rule, RuleError> {
    if doc.version.Absent? then Err(RuleError("$", MissingVersion))
    else if doc.version != Value(1) then Err(RuleError("$", UnsupportedVersion))
    else if doc.condition.Absent? then Err(RuleError("$", MissingCondition))
    else if doc.condition.Null? then Err(RuleError("$.condition", InvalidShape))
    else
      match Scan(Preorder(doc.condition.v, [], 1, false), 0, providers)
      case Some(f) => Err(RuleError(Render("$.condition", f.at), f.reason))
      case None => Ok(Rule(1, ToCondition(doc.condition.v)))
  }

  lemma {:induction false} ScanReasons(vs: seq<Visit>, before: nat, providers: set<string>)
    ensures Scan(vs, before, providers).Some? ==>
            var reason := Scan(vs, before, providers).value.reason;
            !reason.MissingVersion? && !reason.UnsupportedVersion? && !reason.MissingCondition?
  {
    var i := ScanFindsFirst(vs, before, providers);
  }

  /** Nodes are never blamed for a fault of the document. */
  lemma ConditionReasons(doc: RuleWire, providers: set<string>)
    ensures doc.condition.Value? ==>
            var f := Scan(Preorder(doc.condition.v, [], 1, false), 0, providers);
            f.Some? ==> !f.value.reason.MissingVersion? && !f.value.reason.UnsupportedVersion? && !f.value.reason.MissingCondition?
  {
    if doc.condition.Value? {
      ScanReasons(Preorder(doc.condition.v, [], 1, false), 0, providers);
    }
  }

  /** The part of the parser that runs once the JSON text is decoded. */
  method ParseAndValidateRule(doc: RuleWire, providers: set<string>) returns (r: Result<Rule, RuleError>)
    ensures r == Parsed(doc, providers)
    ensures r == Err(RuleError("$", MissingVersion)) <==> doc.version.Absent?
    ensures r == Err(RuleError("$", UnsupportedVersion)) <==> doc.version.Present() && doc.version != Value(1)
    ensures r == Err(RuleError("$", MissingCondition)) <==> doc.version == Value(1) && doc.condition.Absent?
    ensures doc.version == Value(1) && doc.condition.Null? ==> r == Err(RuleError("$.condition", InvalidShape))
    ensures r.Ok? ==> r.value.version == 1
  {
    ConditionReasons(doc, providers);
    if !doc.version.Present() {
      return Err(RuleError("$", MissingVersion));
    }
    if doc.version.Null? || doc.version.v != 1 {
      return Err(RuleError("$", UnsupportedVersion));
    }
    if !doc.condition.Present() {
      return Err(RuleError("$", MissingCondition));
    }
    if doc.condition.Null? {
      return Err(RuleError("$.condition", InvalidShape));
    }
    var nodes := new NodeCounter();
    var condition := ValidateCondition(doc.condition.v, "$.condition", "$.condition", [], 1, nodes, providers);
    if condition.Err? {
      return Err(condition.error);
    }
    return Ok(Rule(doc.version.v, condition.value));
  }
}
