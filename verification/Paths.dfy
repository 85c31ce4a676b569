/** JSON-like paths of rule nodes, as text and as the steps they stand for. */
module Paths {
  datatype Step = ChildAt(index: nat) | TheChild

  function Digit(d: nat): char
    requires d < 10
  {
    '0' + d as char
  }

  function Itoa(n: nat): (s: string)
    ensures s != "" && forall i :: 0 <= i < |s| ==> '0' <= s[i] <= '9'
  {
    if n < 10 then [Digit(n)] else Itoa(n / 10) + [Digit(n % 10)]
  }

  function ChildPath(path: string, index: nat): string {
    path + ".children[" + Itoa(index) + "]"
  }

  function Extend(path: string, step: Step): string {
    match step
    case ChildAt(i) => ChildPath(path, i)
    case TheChild => path + ".child"
  }

  /** The text of the node reached from `root` by `at`. */
  function Render(root: string, at: seq<Step>): string {
    if at == [] then root else Extend(Render(root, at[..|at| - 1]), at[|at| - 1])
  }

  lemma RenderMore(root: string, at: seq<Step>, step: Step)
    ensures Render(root, at + [step]) == Extend(Render(root, at), step)
  {
    assert (at + [step])[..|at|] == at;
  }

  /** A root whose text no step could have produced. */
  predicate ProperRoot(root: string) {
    root != "" && root[|root| - 1] != ']' && root[|root| - 1] != 'd'
  }

  lemma RenderEnd(root: string, at: seq<Step>)
    requires at != []
    ensures var s := Render(root, at); s != "" && (s[|s| - 1] == ']' || s[|s| - 1] == 'd')
  {
    var s := Extend(Render(root, at[..|at| - 1]), at[|at| - 1]);
    assert s[|s| - 1] == if at[|at| - 1].TheChild? then 'd' else ']';
  }

  // ---------------------------------------------------- reading paths back

  predicate Digits(s: string) {
    forall i :: 0 <= i < |s| ==> '0' <= s[i] <= '9'
  }

  /** The number a row of decimal digits spells. */
  function Decimal(s: string): nat
    requires Digits(s)
  {
    if s == "" then 0 else 10 * Decimal(s[..|s| - 1]) + (s[|s| - 1] as int - '0' as int)
  }

  /** The usual way to write a number: no leading zero, and one digit for zero. */
  predicate Numeral(s: string) {
    Digits(s) && s != "" && (s[0] == '0' ==> |s| == 1)
  }

  /** An index is written as the one numeral that spells it. */
  lemma {:induction false} ItoaSpells(n: nat)
    ensures Numeral(Itoa(n)) && Decimal(Itoa(n)) == n
    ensures n > 0 ==> Itoa(n)[0] != '0'
  {
    var s := Itoa(n);
    if n >= 10 {
      ItoaSpells(n / 10);
      assert s[..|s| - 1] == Itoa(n / 10);
    } else {
      assert s[..0] == "";
    }
  }

  lemma ItoaMore(n: nat, d: nat)
    requires n > 0 && d < 10
    ensures Itoa(10 * n + d) == Itoa(n) + [Digit(d)]
  {
  }

  lemma {:induction false} NumeralIsItoa(s: string)
    requires Numeral(s)
    ensures Itoa(Decimal(s)) == s
  {
    var front, d := s[..|s| - 1], s[|s| - 1] as int - '0' as int;
    assert s == front + [Digit(d)];
    if front != "" {
      NumeralIsItoa(front);
      assert Itoa(0) == "0" && front[0] != '0';
      ItoaMore(Decimal(front), d);
    }
  }

  /** `text` is `front` followed by one step; a child's index stands in brackets as the numeral that spells it. */
  ghost predicate StepText(front: string, text: string, step: Step) {
    match step
    case TheChild => text == front + ".child"
    case ChildAt(i) => exists d :: Numeral(d) && Decimal(d) == i && text == front + ".children" + "[" + d + "]"
  }

  lemma StepTextIsExtend(front: string, text: string, step: Step)
    ensures StepText(front, text, step) <==> text == Extend(front, step)
  {
    if step.ChildAt? {
      var i := step.index;
      ItoaSpells(i);
      assert Extend(front, step) == front + ".children" + "[" + Itoa(i) + "]";
      forall d | Numeral(d) && Decimal(d) == i
        ensures d == Itoa(i)
      {
        NumeralIsItoa(d);
      }
    }
  }

  /** Read from the root, each step of the text names the child it leads to. */
  ghost predicate Reads(root: string, at: seq<Step>) {
    && Render(root, []) == root
    && forall k :: 0 <= k < |at| ==> StepText(Render(root, at[..k]), Render(root, at[..k + 1]), at[k])
  }

  lemma RenderReads(root: string, at: seq<Step>)
    ensures Reads(root, at)
  {
    forall k | 0 <= k < |at|
      ensures StepText(Render(root, at[..k]), Render(root, at[..k + 1]), at[k])
    {
      RenderMore(root, at[..k], at[k]);
      assert at[..k + 1] == at[..k] + [at[k]];
      StepTextIsExtend(Render(root, at[..k]), Render(root, at[..k + 1]), at[k]);
    }
  }

  // ---------------------------------------------------- uniqueness

  lemma BracketsSplit(p: string, x: string, q: string, y: string)
    requires p + "[" + x + "]" == q + "[" + y + "]"
    requires '[' !in x && '[' !in y
    ensures p == q && x == y
  {
    var s, t := p + "[" + x + "]", q + "[" + y + "]";
    assert s[|p|] == '[' && t[|q|] == '[';
    assert p == s[..|p|] && q == t[..|q|];
    assert x == s[|p| + 1..|s| - 1] && y == t[|q| + 1..|t| - 1];
  }

  lemma ExtendInjective(p: string, a: Step, q: string, b: Step)
    requires Extend(p, a) == Extend(q, b)
    ensures p == q && a == b
  {
    var s, t := Extend(p, a), Extend(q, b);
    assert s[|s| - 1] == if a.TheChild? then 'd' else ']';
    assert t[|t| - 1] == if b.TheChild? then 'd' else ']';
    match a {
      case TheChild =>
        assert p == s[..|s| - 6] && q == t[..|t| - 6];
      case ChildAt(i) =>
        var j := b.index;
        assert s == (p + ".children") + "[" + Itoa(i) + "]";
        assert t == (q + ".children") + "[" + Itoa(j) + "]";
        BracketsSplit(p + ".children", Itoa(i), q + ".children", Itoa(j));
        assert p == (p + ".children")[..|p|] && q == (q + ".children")[..|q|];
        ItoaSpells(i);
        ItoaSpells(j);
    }
  }

  /** Different nodes have different texts, although ".child" begins ".children[0]". */
  lemma {:induction false} RenderInjective(root: string, a: seq<Step>, b: seq<Step>)
    requires ProperRoot(root) && Render(root, a) == Render(root, b)
    ensures a == b
  {
    if a != [] {
      RenderEnd(root, a);
    }
    if b != [] {
      RenderEnd(root, b);
    }
    if a != [] && b != [] {
      ExtendInjective(Render(root, a[..|a| - 1]), a[|a| - 1], Render(root, b[..|b| - 1]), b[|b| - 1]);
      RenderInjective(root, a[..|a| - 1], b[..|b| - 1]);
      assert a == a[..|a| - 1] + [a[|a| - 1]] && b == b[..|b| - 1] + [b[|b| - 1]];
    }
  }
}
