/** Reachability in a finite import graph, by paths that avoid a set of nodes. */
module Graph {
  type Edges = map<string, seq<string>>

  function Next(e: Edges, n: string): seq<string> {
    if n in e then e[n] else []
  }

  datatype Path = Begin(end: string) | On(to: Path, end: string)

  /** A walk from a root along edges, never entering `blocked`. */
  predicate Walk(e: Edges, roots: set<string>, blocked: set<string>, p: Path) {
    p.end !in blocked &&
    match p
    case Begin(n) => n in roots
    case On(q, n) => Walk(e, roots, blocked, q) && n in Next(e, q.end)
  }

  ghost predicate Reachable(e: Edges, roots: set<string>, blocked: set<string>, n: string) {
    exists p :: Walk(e, roots, blocked, p) && p.end == n
  }

  ghost predicate Closed(e: Edges, blocked: set<string>, s: set<string>) {
    forall n, m :: n in s && m in Next(e, n) && m !in blocked ==> m in s
  }

  /** Every node a walk could possibly name. */
  function Universe(e: Edges, roots: set<string>): set<string> {
    roots + set n, m | n in e && m in e[n] :: m
  }

  ghost function ReachSet(e: Edges, roots: set<string>, blocked: set<string>): set<string> {
    set n | n in Universe(e, roots) && Reachable(e, roots, blocked, n)
  }

  lemma ReachStep(e: Edges, roots: set<string>, blocked: set<string>, n: string, m: string)
    requires Reachable(e, roots, blocked, n) && m in Next(e, n) && m !in blocked
    ensures Reachable(e, roots, blocked, m)
  {
    var p :| Walk(e, roots, blocked, p) && p.end == n;
    assert Walk(e, roots, blocked, On(p, m));
  }

  lemma NextInUniverse(e: Edges, roots: set<string>, n: string, m: string)
    requires m in Next(e, n)
    ensures m in Universe(e, roots)
  {
  }

  lemma ReachRoot(e: Edges, roots: set<string>, blocked: set<string>, n: string)
    requires n in roots && n !in blocked
    ensures Reachable(e, roots, blocked, n)
  {
    assert Walk(e, roots, blocked, Begin(n));
  }

  lemma {:induction false} WalkStays(e: Edges, roots: set<string>, blocked: set<string>, s: set<string>, p: Path)
    requires roots - blocked <= s && Closed(e, blocked, s) && Walk(e, roots, blocked, p)
    ensures p.end in s
  {
    if p.On? {
      WalkStays(e, roots, blocked, s, p.to);
    }
  }

  /** The reachable nodes hold the roots and are closed under edges. */
  lemma ReachSetIsClosed(e: Edges, roots: set<string>, blocked: set<string>)
    ensures var r := ReachSet(e, roots, blocked); roots - blocked <= r && Closed(e, blocked, r) && r !! blocked
  {
    var r := ReachSet(e, roots, blocked);
    forall n | n in roots - blocked
      ensures n in r
    {
      ReachRoot(e, roots, blocked, n);
    }
    forall n, m | n in r && m in Next(e, n) && m !in blocked
      ensures m in r
    {
      ReachStep(e, roots, blocked, n, m);
      NextInUniverse(e, roots, n, m);
    }
  }

  /** They are within every such set, so they are the least one. */
  lemma ReachSetIsLeast(e: Edges, roots: set<string>, blocked: set<string>, s: set<string>)
    requires roots - blocked <= s && Closed(e, blocked, s)
    ensures ReachSet(e, roots, blocked) <= s
  {
    forall n | n in ReachSet(e, roots, blocked)
      ensures n in s
    {
      var p :| Walk(e, roots, blocked, p) && p.end == n;
      WalkStays(e, roots, blocked, s, p);
    }
  }

  /** A closed set of reachable nodes that holds the roots is the reachable set. */
  lemma IsReachSet(e: Edges, roots: set<string>, blocked: set<string>, s: set<string>)
    requires roots - blocked <= s && Closed(e, blocked, s)
    requires forall n :: n in s ==> Reachable(e, roots, blocked, n)
    ensures s == ReachSet(e, roots, blocked)
  {
    ReachSetIsClosed(e, roots, blocked);
    ReachSetIsLeast(e, roots, blocked, s);
    forall n | n in s
      ensures n in ReachSet(e, roots, blocked)
    {
      var p :| Walk(e, roots, blocked, p) && p.end == n;
      WalkStays(e, roots, blocked, ReachSet(e, roots, blocked), p);
    }
  }

  /** A reachable node that is no root was entered from another reachable node. */
  lemma LastLink(e: Edges, roots: set<string>, blocked: set<string>, n: string) returns (b: string)
    requires n in ReachSet(e, roots, blocked) && n !in roots
    ensures b in ReachSet(e, roots, blocked) && n in Next(e, b)
  {
    var p :| Walk(e, roots, blocked, p) && p.end == n;
    b := p.to.end;
    ReachSetIsClosed(e, roots, blocked);
    WalkStays(e, roots, blocked, ReachSet(e, roots, blocked), p.to);
  }
}
