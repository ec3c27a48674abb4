/** What the semantic actions of src/eval.cc do to the stack of stacks, on abstract trees. */
module ExprActions {
  import opened Common
  import opened ExprSyntax
  import opened ExprGrammar
  import opened ExprCorrect

  type Stacks = seq<seq<Ast>>

  function PushOn(st: Stacks, t: Ast): Stacks
    requires st != []
  {
    st[..|st| - 1] + [st[|st| - 1] + [t]]
  }

  function Popped(st: Stacks, count: nat): (r: Stacks)
    requires st != [] && count <= |st[|st| - 1]|
    ensures |r| == |st|
  {
    st[..|st| - 1] + [st[|st| - 1][..|st[|st| - 1]| - count]]
  }

  /** Effect of one action. None: the action pops an empty stack, or closes a group that does
      not hold exactly one expression. */
  function Step(st: Stacks, a: Action): (r: Option<Stacks>) {
    if st == [] then None
    else
      var below, top := st[..|st| - 1], st[|st| - 1];
      var n := |top|;
      match a
      case PushLeaf(k) => Some(PushOn(st, LeafAst(k)))
      case Apply(op) =>
        if IsUnary(op) then
          if n >= 1 then Some(PushOn(Popped(st, 1), Un(op, top[n - 1]))) else None
        else if n >= 2 then Some(PushOn(Popped(st, 2), Bin(op, top[n - 2], top[n - 1])))
        else None
      case Open => Some(st + [[]])
      case Close =>
        if n == 1 && below != [] then Some(PushOn(below, top[0])) else None
  }

  function Steps(st: Stacks, log: seq<Action>): Option<Stacks>
    decreases log
  {
    if log == [] then Some(st)
    else
      match Step(st, log[0])
      case None => None
      case Some(next) => Steps(next, log[1..])
  }

  lemma {:induction false} StepsAppend(st: Stacks, a: seq<Action>, b: seq<Action>)
    ensures Steps(st, a).None? ==> Steps(st, a + b).None?
    ensures Steps(st, a).Some? ==> Steps(st, a + b) == Steps(Steps(st, a).value, b)
    decreases a
  {
    if a == [] {
      assert a + b == b;
    } else {
      assert (a + b)[0] == a[0] && (a + b)[1..] == a[1..] + b;
      if Step(st, a[0]).Some? {
        StepsAppend(Step(st, a[0]).value, a[1..], b);
      }
    }
  }

  lemma StepClose(st: Stacks, a: Ast)
    requires st != []
    ensures Steps(PushOn(st + [[]], a), [Close]) == Some(PushOn(st, a))
  {
    var pushed := PushOn(st + [[]], a);
    assert (st + [[]])[|st|] + [a] == [a];
    assert pushed == st + [[a]];
    assert pushed[..|st|] == st;
  }

  lemma StepUnary(st: Stacks, op: Operator, a: Ast)
    requires st != [] && IsUnary(op)
    ensures Steps(PushOn(st, a), [Apply(op)]) == Some(PushOn(st, Un(op, a)))
  {
    assert Popped(PushOn(st, a), 1) == st;
  }

  lemma StepBinary(st: Stacks, op: Operator, a: Ast, b: Ast)
    requires st != [] && !IsUnary(op)
    ensures Steps(PushOn(PushOn(st, a), b), [Apply(op)]) == Some(PushOn(st, Bin(op, a, b)))
  {
    var top := st[|st| - 1] + [a] + [b];
    assert top[..|top| - 2] == st[|st| - 1];
    assert Popped(PushOn(PushOn(st, a), b), 2) == st;
  }

  /** From any state, the actions of a syntax tree push its abstract tree and nothing else. */
  lemma {:induction false} TreeIsPushed(st: Stacks, t: Syntax)
    requires st != [] && WellFormed(t)
    ensures Steps(st, Actions(t)) == Some(PushOn(st, AstOf(t)))
    decreases t
  {
    match t
    case Leaf(k) =>
      assert Actions(t)[1..] == [];
    case Group(e) =>
      TreeIsPushed(st + [[]], e);
      StepClose(st, AstOf(e));
      StepsAppend(st + [[]], Actions(e), [Close]);
      assert Actions(t)[0] == Open && Actions(t)[1..] == Actions(e) + [Close];
    case Pre(p, e) =>
      TreeIsPushed(st, e);
      StepUnary(st, Prefix(p), AstOf(e));
      StepsAppend(st, Actions(e), [Apply(Prefix(p))]);
    case Inf(p, l, r) =>
      TreeIsPushed(st, l);
      TreeIsPushed(PushOn(st, AstOf(l)), r);
      StepBinary(st, Infix(p), AstOf(l), AstOf(r));
      StepsAppend(st, Actions(l), Actions(r));
      StepsAppend(st, Actions(l) + Actions(r), [Apply(Infix(p))]);
  }

  /** Whatever alternatives were abandoned on the way, an accepted input leaves one stack with
      one expression, the tree C precedence gives to its tokens; and that tree is unique. */
  lemma AcceptedLeavesTheTree(text: string, t: Syntax)
    requires WellFormed(t) && Yield(t) == Lex(text, 0)
    ensures Accepts(text) && Steps([[]], Parse(text).log) == Some([[AstOf(t)]])
  {
    FiresExactly(text, t);
    TreeIsPushed([[]], t);
    PushOnEmpty(AstOf(t));
  }

  lemma PushOnEmpty(a: Ast)
    ensures PushOn([[]], a) == [[a]]
  {
    var st: Stacks := [[]];
    assert st[0] + [a] == [a];
    assert PushOn(st, a) == [[a]];
  }

  lemma OneReading(text: string, t: Syntax, u: Syntax)
    requires WellFormed(t) && Yield(t) == Lex(text, 0)
    requires WellFormed(u) && Yield(u) == Lex(text, 0)
    ensures AstOf(t) == AstOf(u)
  {
    AcceptedLeavesTheTree(text, t);
    AcceptedLeavesTheTree(text, u);
  }
}
