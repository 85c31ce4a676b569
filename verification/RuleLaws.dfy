/** What the rule validator and the canonical encoding guarantee for every document. */
module RuleLaws {
  import opened Wrappers
  import opened Paths
  import opened Rules

  // ---------------------------------------------------- acceptance

  /** The cascade of member checks passes on exactly the three closed shapes. */
  lemma ShapeErrorIffNotClosed(w: ConditionWire, providers: set<string>)
    ensures ShapeError(w, providers).None? <==> FactLeaf(w, providers) || AllOrAny(w) || Negation(w)
  {
  }

  /** A member is present that a node of this operator or fact never has. */
  predicate HasForeignMember(w: ConditionWire) {
    || (w.op.Present()
        && (w.provider.Present() || w.protocol.Present() || w.loginMethod.Present() || w.source.Present()))
    || ((w.op == Value(All) || w.op == Value(Any)) && w.child.Present())
    || (w.op == Value(Not) && w.children.Present())
    || (w.fact.Present() && (w.children.Present() || w.child.Present()))
    || (w.fact.Value? && !w.fact.v.OtherFact?
        && (|| (w.provider.Present() && !w.fact.v.ConnectionProvider?)
            || (w.protocol.Present() && !w.fact.v.ConnectionProtocol?)
            || (w.loginMethod.Present() && !w.fact.v.LoginMethod?)
            || (w.source.Present() && !w.fact.v.Avatar?)))
  }

  /** The node passes the checks made before its own members are looked at. */
  predicate Reached(v: Visit, before: nat) {
    !(v.underNot && CombinatorOp(v.node.op)) && v.depth <= 8 && before < 64
  }

  /** The node is an operator or a fact, with no member foreign to it. */
  predicate OneKind(w: ConditionWire) {
    !w.HasNull() && w.op.Present() != w.fact.Present() && !HasForeignMember(w)
  }

  /** When each reason is the one reported for a node that `before` nodes precede. */
  predicate Deserves(v: Visit, before: nat, reason: Reason, providers: set<string>) {
    var w := v.node;
    var kind := Reached(v, before) && OneKind(w);
    var list := kind && (w.op == Value(All) || w.op == Value(Any));
    match reason
    case MissingVersion => false
    case UnsupportedVersion => false
    case MissingCondition => false
    case NotRequiresFact => v.underNot && CombinatorOp(w.op)
    case MaxDepthExceeded => !(v.underNot && CombinatorOp(w.op)) && v.depth > 8
    case MaxNodesExceeded => !(v.underNot && CombinatorOp(w.op)) && v.depth <= 8 && before >= 64
    case InvalidShape => Reached(v, before) && !OneKind(w)
    case InvalidOp => kind && w.op.Present() && !CombinatorOp(w.op)
    case MissingChildren => list && w.children.Absent?
    case EmptyChildren => list && w.children == Value(ConditionsWire([]))
    case MaxChildrenExceeded => list && w.children.Value? && |w.children.v.list| > 32
    case MissingChild => kind && w.op == Value(Not) && w.child.Absent?
    case InvalidFact => kind && w.fact.Value? && w.fact.v.OtherFact?
    case MissingProvider => kind && w.fact == Value(ConnectionProvider) && (w.provider.Absent? || w.provider == Value(""))
    case ProviderNotFound =>
      kind && w.fact == Value(ConnectionProvider) && w.provider.Value? && w.provider.v != "" && w.provider.v !in providers
    case InvalidProtocol =>
      kind && w.fact == Value(ConnectionProtocol) && (w.protocol.Value? ==> w.protocol.v.OtherProtocol?)
    case InvalidMethod =>
      kind && w.fact == Value(LoginMethod) && (w.loginMethod.Value? ==> w.loginMethod.v.OtherMethod?)
    case InvalidSource =>
      kind && w.fact == Value(Avatar) && (w.source.Value? ==> w.source.v.OtherSource?)
  }

  /** A reason is reported for a node if and only if the node deserves it; so at most one is deserved. */
  lemma OffenceIff(v: Visit, before: nat, reason: Reason, providers: set<string>)
    ensures Offence(v, before, providers) == Some(reason) <==> Deserves(v, before, reason, providers)
  {
  }

  /** The declared language, for a subtree at `depth` that `before` nodes precede. */
  predicate Fits(w: ConditionWire, depth: nat, before: nat, providers: set<string>) {
    Grammar(w, providers) && depth + Height(w) <= MAX_DEPTH + 1 && before + Size(w) <= MAX_NODES
  }

  predicate ListFits(list: seq<ConditionWire>, k: nat, depth: nat, before: nat, providers: set<string>)
    requires k <= |list|
  {
    k == 0 || (&& ListFits(list, k - 1, depth, before, providers)
               && Fits(list[k - 1], depth, before + SizeUpTo(list, k - 1), providers))
  }

  predicate GrammarUpTo(list: seq<ConditionWire>, k: nat, providers: set<string>)
    requires k <= |list|
  {
    k == 0 || (GrammarUpTo(list, k - 1, providers) && Grammar(list[k - 1], providers))
  }

  lemma {:induction false} GrammarUpToIff(list: seq<ConditionWire>, k: nat, providers: set<string>)
    requires k <= |list|
    ensures GrammarUpTo(list, k, providers) <==> forall i :: 0 <= i < k ==> Grammar(list[i], providers)
  {
    if k > 0 {
      GrammarUpToIff(list, k - 1, providers);
    }
  }

  lemma {:induction false} ListFitsIff(list: seq<ConditionWire>, k: nat, depth: nat, before: nat, providers: set<string>)
    requires 0 < k <= |list|
    ensures ListFits(list, k, depth, before, providers) <==>
            && GrammarUpTo(list, k, providers)
            && depth + HeightUpTo(list, k) <= MAX_DEPTH + 1 && before + SizeUpTo(list, k) <= MAX_NODES
  {
    if k > 1 {
      ListFitsIff(list, k - 1, depth, before, providers);
    } else {
      assert ListFits(list, 0, depth, before, providers) && HeightUpTo(list, 0) == 0 == SizeUpTo(list, 0);
    }
  }

  /** One node's own check and its children's fit decide the subtree's fit. */
  lemma FitsByParts(w: ConditionWire, depth: nat, before: nat, providers: set<string>)
    requires depth <= MAX_DEPTH && before < MAX_NODES
    ensures if ShapeError(w, providers).Some? then !Fits(w, depth, before, providers)
            else if w.children.Value? then
              Fits(w, depth, before, providers) <==>
              ListFits(w.children.v.list, |w.children.v.list|, depth + 1, before + 1, providers)
            else if w.child.Value? then
              Fits(w, depth, before, providers) <==> !CombinatorOp(w.child.v.op) && Fits(w.child.v, depth + 1, before + 1, providers)
            else Fits(w, depth, before, providers)
  {
    ShapeErrorIffNotClosed(w, providers);
    if AllOrAny(w) {
      GrammarUpToIff(w.children.v.list, |w.children.v.list|, providers);
      ListFitsIff(w.children.v.list, |w.children.v.list|, depth + 1, before + 1, providers);
    }
    if Negation(w) {
      ShapeErrorIffNotClosed(w.child.v, providers);
    }
  }

  /** Nothing is found in the subtree. */
  predicate Clear(w: ConditionWire, at: seq<Step>, depth: nat, before: nat, providers: set<string>) {
    Scan(Preorder(w, at, depth, false), before, providers).None?
  }

  /** The scan of a list of children, child by child. */
  predicate EachClear(list: seq<ConditionWire>, k: nat, at: seq<Step>, depth: nat, before: nat, providers: set<string>)
    requires k <= |list|
  {
    k == 0 || (&& EachClear(list, k - 1, at, depth, before, providers)
               && Clear(list[k - 1], at + [ChildAt(k - 1)], depth, before + SizeUpTo(list, k - 1), providers))
  }

  lemma {:induction false} ScanIsEachClear(list: seq<ConditionWire>, k: nat, at: seq<Step>, depth: nat, before: nat,
                                           providers: set<string>)
    requires k <= |list|
    ensures Scan(PreorderUpTo(list, k, at, depth), before, providers).None? <==>
            EachClear(list, k, at, depth, before, providers)
  {
    if k > 0 {
      ScanIsEachClear(list, k - 1, at, depth, before, providers);
      ScanAppend(PreorderUpTo(list, k - 1, at, depth), Preorder(list[k - 1], at + [ChildAt(k - 1)], depth, false),
                 before, providers);
    }
  }

  lemma OutOfBounds(w: ConditionWire, at: seq<Step>, depth: nat, before: nat, providers: set<string>)
    requires depth > MAX_DEPTH || before >= MAX_NODES
    ensures !Clear(w, at, depth, before, providers) && !Fits(w, depth, before, providers)
  {
    assert Preorder(w, at, depth, false)[0] == Visit(w, at, depth, false);
  }

  /** A subtree is clear when its root's own members are and its children are. */
  lemma ClearByParts(w: ConditionWire, at: seq<Step>, depth: nat, before: nat, providers: set<string>)
    requires depth <= MAX_DEPTH && before < MAX_NODES
    ensures if ShapeError(w, providers).Some? then !Clear(w, at, depth, before, providers)
            else if w.children.Value? then
              Clear(w, at, depth, before, providers) <==>
              EachClear(w.children.v.list, |w.children.v.list|, at, depth + 1, before + 1, providers)
            else if w.child.Value? then
              Clear(w, at, depth, before, providers) <==>
              !CombinatorOp(w.child.v.op) && Clear(w.child.v, at + [TheChild], depth + 1, before + 1, providers)
            else Clear(w, at, depth, before, providers)
  {
    HeadThenRest(w, at, depth, before, providers);
    if w.children.Value? {
      ScanIsEachClear(w.children.v.list, |w.children.v.list|, at, depth + 1, before + 1, providers);
    } else if w.child.Value? {
      UnderNot(w.child.v, at + [TheChild], depth + 1, before + 1, providers);
    }
  }

  lemma {:induction false} ClearIffFits(w: ConditionWire, at: seq<Step>, depth: nat, before: nat, providers: set<string>)
    ensures Clear(w, at, depth, before, providers) <==> Fits(w, depth, before, providers)
    decreases w, 0
  {
    if depth > MAX_DEPTH || before >= MAX_NODES {
      OutOfBounds(w, at, depth, before, providers);
    } else {
      ClearByParts(w, at, depth, before, providers);
      FitsByParts(w, depth, before, providers);
      if w.children.Value? {
        EachClearIff(w.children.v.list, |w.children.v.list|, at, depth + 1, before + 1, providers);
      } else if w.child.Value? {
        ClearIffFits(w.child.v, at + [TheChild], depth + 1, before + 1, providers);
      }
    }
  }

  lemma {:induction false} EachClearIff(list: seq<ConditionWire>, k: nat, at: seq<Step>, depth: nat, before: nat,
                                        providers: set<string>)
    requires k <= |list|
    ensures EachClear(list, k, at, depth, before, providers) <==> ListFits(list, k, depth, before, providers)
    decreases list, k
  {
    if k > 0 {
      EachClearIff(list, k - 1, at, depth, before, providers);
      ClearIffFits(list[k - 1], at + [ChildAt(k - 1)], depth, before + SizeUpTo(list, k - 1), providers);
    }
  }

  /** The validator accepts exactly the declared language and returns the tree it was given. */
  lemma AcceptsExactlyAdmissible(doc: RuleWire, providers: set<string>)
    ensures Parsed(doc, providers).Ok? <==>
            doc.version == Value(1) && doc.condition.Value? && Admissible(doc.condition.v, providers)
    ensures doc.condition.Value? ==>
            (Admissible(doc.condition.v, providers) <==>
             Grammar(doc.condition.v, providers) && Height(doc.condition.v) <= 8 && Size(doc.condition.v) <= 64)
    ensures Parsed(doc, providers).Ok? ==> Parsed(doc, providers).value == Rule(1, ToCondition(doc.condition.v))
  {
    if doc.condition.Value? {
      ClearIffFits(doc.condition.v, [], 1, 0, providers);
    }
  }

  // ---------------------------------------------------- reported paths

  function Kid(w: ConditionWire, step: Step): Option<ConditionWire> {
    match step
    case TheChild => if w.child.Value? then Some(w.child.v) else None
    case ChildAt(i) => if w.children.Value? && i < |w.children.v.list| then Some(w.children.v.list[i]) else None
  }

  /** The node of `root` that `at` leads to, if there is one. */
  function Resolve(root: ConditionWire, at: seq<Step>): Option<ConditionWire> {
    if at == [] then Some(root)
    else
      match Resolve(root, at[..|at| - 1])
      case None => None
      case Some(w) => Kid(w, at[|at| - 1])
  }

  predicate Placed(root: ConditionWire, v: Visit) {
    Resolve(root, v.at) == Some(v.node) && v.depth == 1 + |v.at|
  }

  predicate StepBefore(a: Step, b: Step) {
    a.ChildAt? && (b.ChildAt? ==> a.index < b.index)
  }

  /** Document order: a node before all below it, and earlier children before later ones. */
  ghost predicate Precedes(a: seq<Step>, b: seq<Step>) {
    a < b || exists k :: Forks(a, b, k)
  }

  predicate Forks(a: seq<Step>, b: seq<Step>, k: nat) {
    k < |a| && k < |b| && a[..k] == b[..k] && StepBefore(a[k], b[k])
  }

  lemma PrecedesDiffers(a: seq<Step>, b: seq<Step>)
    requires Precedes(a, b)
    ensures a != b
  {
  }

  /** Every entry of the list is the node its steps lead to, and the entries stand in document order. */
  ghost predicate Listing(root: ConditionWire, at: seq<Step>, vs: seq<Visit>) {
    && (forall i :: 0 <= i < |vs| ==> Placed(root, vs[i]) && at <= vs[i].at)
    && forall i, j :: 0 <= i < j < |vs| ==> Precedes(vs[i].at, vs[j].at)
  }

  lemma StepDown(root: ConditionWire, w: ConditionWire, at: seq<Step>, step: Step)
    requires Resolve(root, at) == Some(w)
    ensures step.TheChild? && w.child.Value? ==> Resolve(root, at + [step]) == Some(w.child.v)
    ensures step.ChildAt? && w.children.Value? && step.index < |w.children.v.list| ==>
            Resolve(root, at + [step]) == Some(w.children.v.list[step.index])
  {
    assert (at + [step])[..|at|] == at;
  }

  lemma {:induction false} PreorderLists(root: ConditionWire, w: ConditionWire, at: seq<Step>, depth: nat, underNot: bool)
    requires Resolve(root, at) == Some(w) && depth == 1 + |at|
    ensures Listing(root, at, Preorder(w, at, depth, underNot))
    decreases w, 0
  {
    var kids: seq<Visit>, kid: seq<Visit> := [], [];
    if w.children.Value? {
      kids := PreorderUpTo(w.children.v.list, |w.children.v.list|, at, depth + 1);
      PreorderUpToLists(root, w, |w.children.v.list|, at, depth);
    }
    if w.child.Value? {
      kid := Preorder(w.child.v, at + [TheChild], depth + 1, w.op == Value(Not));
      StepDown(root, w, at, TheChild);
      PreorderLists(root, w.child.v, at + [TheChild], depth + 1, w.op == Value(Not));
    }
    ListingCons(root, w, at, depth, underNot, kids, kid);
    assert Preorder(w, at, depth, underNot) == [Visit(w, at, depth, underNot)] + kids + kid;
  }

  lemma ListingCons(root: ConditionWire, w: ConditionWire, at: seq<Step>, depth: nat, underNot: bool, kids: seq<Visit>,
                    kid: seq<Visit>)
    requires Placed(root, Visit(w, at, depth, underNot))
    requires Listing(root, at, kids) && forall i :: 0 <= i < |kids| ==> |kids[i].at| > |at| && kids[i].at[|at|].ChildAt?
    requires Listing(root, at + [TheChild], kid)
    ensures Listing(root, at, [Visit(w, at, depth, underNot)] + kids + kid)
  {
    forall i | 0 <= i < |kid|
      ensures at < kid[i].at && kid[i].at[|at|] == TheChild
    {
      assert kid[i].at[..|at| + 1] == at + [TheChild];
    }
    forall i, j | 0 <= i < |kids| && 0 <= j < |kid|
      ensures Precedes(kids[i].at, kid[j].at)
    {
      assert Forks(kids[i].at, kid[j].at, |at|);
    }
  }

  lemma {:induction false} PreorderUpToLists(root: ConditionWire, w: ConditionWire, k: nat, at: seq<Step>, depth: nat)
    requires w.children.Value? && k <= |w.children.v.list| && Resolve(root, at) == Some(w) && depth == 1 + |at|
    ensures Listing(root, at, PreorderUpTo(w.children.v.list, k, at, depth + 1))
    ensures UnderChildren(at, k, PreorderUpTo(w.children.v.list, k, at, depth + 1))
    decreases w.children.v.list, k
  {
    if k > 0 {
      var list := w.children.v.list;
      PreorderUpToLists(root, w, k - 1, at, depth);
      StepDown(root, w, at, ChildAt(k - 1));
      PreorderLists(root, list[k - 1], at + [ChildAt(k - 1)], depth + 1, false);
      ListingAppend(root, at, k, PreorderUpTo(list, k - 1, at, depth + 1),
                    Preorder(list[k - 1], at + [ChildAt(k - 1)], depth + 1, false));
    }
  }

  /** Every entry lies below `at`, under one of its first `k` children. */
  ghost predicate UnderChildren(at: seq<Step>, k: nat, vs: seq<Visit>) {
    forall i :: 0 <= i < |vs| ==> |vs[i].at| > |at| && vs[i].at[|at|].ChildAt? && vs[i].at[|at|].index < k
  }

  lemma ListingAppend(root: ConditionWire, at: seq<Step>, k: nat, a: seq<Visit>, b: seq<Visit>)
    requires k > 0 && Listing(root, at, a) && UnderChildren(at, k - 1, a) && Listing(root, at + [ChildAt(k - 1)], b)
    ensures Listing(root, at, a + b) && UnderChildren(at, k, a + b)
  {
    forall i | 0 <= i < |b|
      ensures at < b[i].at && b[i].at[|at|] == ChildAt(k - 1)
    {
      assert b[i].at[..|at| + 1] == at + [ChildAt(k - 1)];
    }
    forall i, j | 0 <= i < |a| && 0 <= j < |b|
      ensures Precedes(a[i].at, b[j].at)
    {
      assert Forks(a[i].at, b[j].at, |at|);
    }
  }

  lemma {:induction false} ResolveFront(w: ConditionWire, step: Step, rest: seq<Step>)
    requires Resolve(w, [step] + rest).Some?
    ensures Kid(w, step).Some? && Resolve(Kid(w, step).value, rest) == Resolve(w, [step] + rest)
    decreases |rest|
  {
    var whole := [step] + rest;
    if rest == [] {
      assert whole[..0] == [];
    } else {
      assert whole[..|whole| - 1] == [step] + rest[..|rest| - 1];
      ResolveFront(w, step, rest[..|rest| - 1]);
    }
  }

  ghost predicate Listed(vs: seq<Visit>, at: seq<Step>) {
    exists i :: 0 <= i < |vs| && vs[i].at == at
  }

  lemma ListedInBoth(a: seq<Visit>, b: seq<Visit>, at: seq<Step>)
    ensures Listed(a, at) || Listed(b, at) ==> Listed(a + b, at)
  {
    if i :| 0 <= i < |a| && a[i].at == at {
      assert (a + b)[i].at == at;
    }
    if i :| 0 <= i < |b| && b[i].at == at {
      assert (a + b)[|a| + i].at == at;
    }
  }

  lemma {:induction false} ListedUpTo(list: seq<ConditionWire>, i: nat, k: nat, at: seq<Step>, depth: nat, target: seq<Step>)
    requires i < k <= |list| && Listed(Preorder(list[i], at + [ChildAt(i)], depth, false), target)
    ensures Listed(PreorderUpTo(list, k, at, depth), target)
    decreases k
  {
    ListedInBoth(PreorderUpTo(list, k - 1, at, depth), Preorder(list[k - 1], at + [ChildAt(k - 1)], depth, false), target);
    if i < k - 1 {
      ListedUpTo(list, i, k - 1, at, depth, target);
    }
  }

  /** The list leaves no node of the tree out. */
  lemma {:induction false} EveryNodeListed(w: ConditionWire, at: seq<Step>, depth: nat, underNot: bool, rel: seq<Step>)
    requires Resolve(w, rel).Some?
    ensures Listed(Preorder(w, at, depth, underNot), at + rel)
    decreases |rel|
  {
    var vs := Preorder(w, at, depth, underNot);
    if rel == [] {
      assert vs[0].at == at + rel;
    } else {
      var step, rest := rel[0], rel[1..];
      assert rel == [step] + rest && at + rel == at + [step] + rest;
      ResolveFront(w, step, rest);
      EveryNodeListed(Kid(w, step).value, at + [step], depth + 1, step.TheChild? && w.op == Value(Not), rest);
      var kids := if w.children.Value? then PreorderUpTo(w.children.v.list, |w.children.v.list|, at, depth + 1) else [];
      var kid := if w.child.Value? then Preorder(w.child.v, at + [TheChild], depth + 1, w.op == Value(Not)) else [];
      if step.ChildAt? {
        ListedUpTo(w.children.v.list, step.index, |w.children.v.list|, at, depth + 1, at + rel);
      }
      ListedInBoth([vs[0]], kids, at + rel);
      ListedInBoth([vs[0]] + kids, kid, at + rel);
    }
  }

  ghost predicate FirstOffenceAt(vs: seq<Visit>, i: nat, reason: Reason, providers: set<string>) {
    && i < |vs| && Offence(vs[i], i, providers) == Some(reason)
    && forall j :: 0 <= j < i ==> Offence(vs[j], j, providers).None?
  }

  /** A rejected condition is blamed on its first offending node in document order, and only that node has the path. */
  lemma RejectionNamesFirstOffence(doc: RuleWire, providers: set<string>) returns (i: nat)
    requires doc.version == Value(1) && doc.condition.Value? && Parsed(doc, providers).Err?
    ensures var vs := Preorder(doc.condition.v, [], 1, false);
      var e := Parsed(doc, providers).error;
      && Listing(doc.condition.v, [], vs) && FirstOffenceAt(vs, i, e.reason, providers)
      && Deserves(vs[i], i, e.reason, providers) && Reads("$.condition", vs[i].at)
      && Resolve(doc.condition.v, vs[i].at) == Some(vs[i].node)
      && (forall at :: Resolve(doc.condition.v, at).Some? ==> Listed(vs, at))
      && forall j :: 0 <= j < |vs| ==> (e.path == Render("$.condition", vs[j].at) <==> j == i)
  {
    var vs := Preorder(doc.condition.v, [], 1, false);
    i := ScanFindsFirst(vs, 0, providers);
    OffenceIff(vs[i], i, Parsed(doc, providers).error.reason, providers);
    RenderReads("$.condition", vs[i].at);
    PreorderLists(doc.condition.v, doc.condition.v, [], 1, false);
    AllListed(doc.condition.v);
    PathsDiffer(doc.condition.v, vs, "$.condition", i);
  }

  lemma AllListed(w: ConditionWire)
    ensures forall at :: Resolve(w, at).Some? ==> Listed(Preorder(w, [], 1, false), at)
  {
    forall at | Resolve(w, at).Some?
      ensures Listed(Preorder(w, [], 1, false), at)
    {
      EveryNodeListed(w, [], 1, false, at);
      assert [] + at == at;
    }
  }

  lemma PathsDiffer(w: ConditionWire, vs: seq<Visit>, root: string, i: nat)
    requires Listing(w, [], vs) && ProperRoot(root) && i < |vs|
    ensures forall j :: 0 <= j < |vs| ==> (Render(root, vs[i].at) == Render(root, vs[j].at) <==> j == i)
  {
    forall j | 0 <= j < |vs| && Render(root, vs[i].at) == Render(root, vs[j].at)
      ensures j == i
    {
      RenderInjective(root, vs[i].at, vs[j].at);
      if i < j {
        PrecedesDiffers(vs[i].at, vs[j].at);
      } else if j < i {
        PrecedesDiffers(vs[j].at, vs[i].at);
      }
    }
  }

  // ---------------------------------------------------- canonical form

  function EncodeRule(r: Rule): RuleWire {
    RuleWire(Value(r.version), Value(Encode(r.condition)))
  }

  lemma {:induction false} DecodeEncode(c: Condition)
    ensures ToCondition(Encode(c)) == c
    decreases c, 0
  {
    DecodeEncodeAll(c.children);
    if c.child.Some? {
      DecodeEncode(c.child.value);
    }
  }

  lemma {:induction false} DecodeEncodeAll(cs: seq<Condition>)
    ensures ToConditions(EncodeAll(cs)) == cs
    decreases cs, 0
  {
    if cs != [] {
      DecodeEncodeAll(cs[..|cs| - 1]);
      DecodeEncode(cs[|cs| - 1]);
      assert EncodeAll(cs)[..|cs| - 1] == EncodeAll(cs[..|cs| - 1]);
    }
  }

  /** Re-encoding would leave none of the node's own members out: no null, no empty text, no empty list. */
  predicate FullHere(w: ConditionWire) {
    && !w.HasNull() && w.children != Value(ConditionsWire([]))
    && w.op != Value(NO_OP) && w.fact != Value(NO_FACT) && w.provider != Value("")
    && w.protocol != Value(NO_PROTOCOL) && w.loginMethod != Value(NO_METHOD) && w.source != Value(NO_SOURCE)
  }

  predicate Full(w: ConditionWire)
    decreases w, 0
  {
    && FullHere(w)
    && (w.children.Value? ==> FullUpTo(w.children.v.list, |w.children.v.list|))
    && (w.child.Value? ==> Full(w.child.v))
  }

  predicate FullUpTo(ws: seq<ConditionWire>, k: nat)
    requires k <= |ws|
    decreases ws, k
  {
    k == 0 || (FullUpTo(ws, k - 1) && Full(ws[k - 1]))
  }

  predicate Survives(w: ConditionWire) {
    Encode(ToCondition(w)) == w
  }

  predicate AllSurvive(ws: seq<ConditionWire>, k: nat)
    requires k <= |ws|
  {
    k == 0 || (AllSurvive(ws, k - 1) && Survives(ws[k - 1]))
  }

  lemma {:induction false} EncodeAllAt(cs: seq<Condition>, i: nat)
    requires i < |cs|
    ensures EncodeAll(cs)[i] == Encode(cs[i])
  {
    if i < |cs| - 1 {
      EncodeAllAt(cs[..|cs| - 1], i);
    }
  }

  /** Two lists of one length agree on their first `k` elements. */
  predicate SameUpTo(a: seq<ConditionWire>, b: seq<ConditionWire>, k: nat)
    requires |a| == |b| && k <= |a|
  {
    k == 0 || (SameUpTo(a, b, k - 1) && a[k - 1] == b[k - 1])
  }

  lemma {:induction false} SameUpToIff(a: seq<ConditionWire>, b: seq<ConditionWire>, k: nat)
    requires |a| == |b| && k <= |a|
    ensures SameUpTo(a, b, k) <==> forall i :: 0 <= i < k ==> a[i] == b[i]
  {
    if k > 0 {
      SameUpToIff(a, b, k - 1);
    }
  }

  lemma {:induction false} AllSurviveIffSame(ws: seq<ConditionWire>, k: nat)
    requires k <= |ws|
    ensures SameUpTo(EncodeAll(ToConditions(ws)), ws, k) <==> AllSurvive(ws, k)
  {
    if k > 0 {
      AllSurviveIffSame(ws, k - 1);
      ToConditionsAt(ws, k - 1);
      EncodeAllAt(ToConditions(ws), k - 1);
    }
  }

  lemma ListSurvivesIff(ws: seq<ConditionWire>)
    ensures EncodeAll(ToConditions(ws)) == ws <==> AllSurvive(ws, |ws|)
  {
    AllSurviveIffSame(ws, |ws|);
    SameUpToIff(EncodeAll(ToConditions(ws)), ws, |ws|);
  }

  lemma SurvivesByParts(w: ConditionWire)
    ensures Survives(w) <==>
            && FullHere(w)
            && (w.children.Value? ==> EncodeAll(ToConditions(w.children.v.list)) == w.children.v.list)
            && (w.child.Value? ==> Survives(w.child.v))
  {
  }

  /** A tree survives decoding and re-encoding exactly when no member of it, at any depth, is empty. */
  lemma {:induction false} SurvivesIffFull(w: ConditionWire)
    ensures Encode(ToCondition(w)) == w <==> Full(w)
    decreases w, 0
  {
    SurvivesByParts(w);
    if w.children.Value? {
      var list := w.children.v.list;
      ListSurvivesIff(list);
      AllSurviveIffFull(list, |list|);
    }
    if w.child.Value? {
      SurvivesIffFull(w.child.v);
    }
  }

  lemma {:induction false} AllSurviveIffFull(ws: seq<ConditionWire>, k: nat)
    requires k <= |ws|
    ensures AllSurvive(ws, k) <==> FullUpTo(ws, k)
    decreases ws, k
  {
    if k > 0 {
      AllSurviveIffFull(ws, k - 1);
      SurvivesIffFull(ws[k - 1]);
    }
  }

  /** No accepted tree holds an empty member; for a provider leaf that is the check on its parameter. */
  lemma {:induction false} GrammarIsFull(w: ConditionWire, providers: set<string>)
    requires Grammar(w, providers)
    ensures Full(w)
    decreases w, 0
  {
    if AllOrAny(w) {
      var list := w.children.v.list;
      GrammarUpToIff(list, |list|, providers);
      GrammarUpToIsFull(list, |list|, providers);
    } else if Negation(w) {
      GrammarIsFull(w.child.v, providers);
    }
  }

  lemma {:induction false} GrammarUpToIsFull(ws: seq<ConditionWire>, k: nat, providers: set<string>)
    requires k <= |ws| && GrammarUpTo(ws, k, providers)
    ensures FullUpTo(ws, k)
    decreases ws, k
  {
    if k > 0 {
      GrammarUpToIsFull(ws, k - 1, providers);
      GrammarIsFull(ws[k - 1], providers);
    }
  }

  /** The canonical encoding of an accepted rule is the very document that was accepted, so parsing it again changes nothing. */
  lemma AcceptedDocumentIsCanonical(doc: RuleWire, providers: set<string>)
    requires Parsed(doc, providers).Ok?
    ensures EncodeRule(Parsed(doc, providers).value) == doc
    ensures Parsed(EncodeRule(Parsed(doc, providers).value), providers) == Parsed(doc, providers)
  {
    AcceptsExactlyAdmissible(doc, providers);
    GrammarIsFull(doc.condition.v, providers);
    SurvivesIffFull(doc.condition.v);
  }

  /** A rule comes out of the parser exactly when its own encoding parses back to it; no two rules share an encoding. */
  lemma EncodingIsFaithful(r: Rule, s: Rule, providers: set<string>)
    ensures EncodeRule(r) == EncodeRule(s) ==> r == s
    ensures (exists doc :: Parsed(doc, providers) == Ok(r)) <==> Parsed(EncodeRule(r), providers) == Ok(r)
  {
    DecodeEncode(r.condition);
    DecodeEncode(s.condition);
    if doc :| Parsed(doc, providers) == Ok(r) {
      AcceptedDocumentIsCanonical(doc, providers);
    }
  }

  // ---------------------------------------------------- known providers

  function Mentioned(w: ConditionWire): set<string>
    decreases w, 0
  {
    (if w.provider.Value? then {w.provider.v} else {})
    + (if w.children.Value? then MentionedUpTo(w.children.v.list, |w.children.v.list|) else {})
    + (if w.child.Value? then Mentioned(w.child.v) else {})
  }

  function MentionedUpTo(ws: seq<ConditionWire>, k: nat): (m: set<string>)
    requires k <= |ws|
    ensures forall p :: p in m <==> exists i :: 0 <= i < k && p in Mentioned(ws[i])
    decreases ws, k
  {
    if k == 0 then {} else MentionedUpTo(ws, k - 1) + Mentioned(ws[k - 1])
  }

  lemma {:induction false} GrammarMentions(w: ConditionWire, p: set<string>, q: set<string>)
    requires Grammar(w, p)
    ensures Mentioned(w) <= p
    ensures Mentioned(w) <= q ==> Grammar(w, q)
    decreases w
  {
    if AllOrAny(w) {
      var list := w.children.v.list;
      forall i | 0 <= i < |list|
        ensures Mentioned(list[i]) <= p && (Mentioned(list[i]) <= q ==> Grammar(list[i], q))
      {
        GrammarMentions(list[i], p, q);
      }
    } else if Negation(w) {
      GrammarMentions(w.child.v, p, q);
    }
  }

  /** The provider set matters only through the providers a document mentions. */
  lemma OnlyMentionedProvidersMatter(doc: RuleWire, p: set<string>, q: set<string>)
    requires Parsed(doc, p).Ok?
    ensures Mentioned(doc.condition.v) <= p
    ensures Parsed(doc, q).Ok? <==> Mentioned(doc.condition.v) <= q
    ensures Parsed(doc, q).Ok? ==> Parsed(doc, q) == Parsed(doc, p)
  {
    AcceptsExactlyAdmissible(doc, p);
    AcceptsExactlyAdmissible(doc, q);
    GrammarMentions(doc.condition.v, p, q);
    if Parsed(doc, q).Ok? {
      GrammarMentions(doc.condition.v, q, p);
    }
  }
}
