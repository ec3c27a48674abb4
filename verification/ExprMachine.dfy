/** ParserStack, ParserState and DebugExpression of src/eval.cc: the expression pool with one
    shared node per symbol, the stack of stacks the actions work on, and its evaluation. */
module ExprMachine {
  import opened Common
  import opened ExprSyntax
  import opened ExprGrammar
  import opened ExprCorrect
  import opened ExprActions
  import opened ExprRejected
  import opened ExprValues

  // ---- the expression pool

  /** An entry of expressions_. Pointers are positions in the pool. */
  datatype Node =
    | Literal(value: int)
    | Symbol(name: string, value: int)
    | UnaryNode(op: Operator, arg: nat)
    | BinaryNode(op: Operator, left: nat, right: nat)

  /** Nodes point only to nodes made before them. */
  ghost predicate Acyclic(pool: seq<Node>) {
    forall i :: 0 <= i < |pool| ==>
      match pool[i]
      case UnaryNode(_, a) => a < i
      case BinaryNode(_, l, r) => l < i && r < i
      case _ => true
  }

  /** The tree hanging off position p, shared nodes unfolded, is t. */
  ghost predicate Denotes(pool: seq<Node>, p: nat, t: Ast)
    decreases t
  {
    p < |pool| &&
    match t
    case Const(v) => pool[p] == Literal(v)
    case Sym(n) => pool[p].Symbol? && pool[p].name == n
    case Un(op, e) => pool[p].UnaryNode? && pool[p].op == op && Denotes(pool, pool[p].arg, e)
    case Bin(op, l, r) =>
      pool[p].BinaryNode? && pool[p].op == op
      && Denotes(pool, pool[p].left, l) && Denotes(pool, pool[p].right, r)
  }

  /** Growing the pool or setting values of symbols does not change any tree in it. */
  ghost predicate Keeps(pool: seq<Node>, pool': seq<Node>) {
    |pool| <= |pool'| &&
    forall i :: 0 <= i < |pool| ==>
      pool'[i] == pool[i]
      || (pool[i].Symbol? && pool'[i].Symbol? && pool'[i].name == pool[i].name)
  }

  lemma UnaryDenotes(pool: seq<Node>, op: Operator, a: nat, t: Ast)
    requires Denotes(pool, a, t)
    ensures a < |pool| && Keeps(pool, pool + [UnaryNode(op, a)])
    ensures Denotes(pool + [UnaryNode(op, a)], |pool|, Un(op, t))
  {
    KeepsTrees(pool, pool + [UnaryNode(op, a)], a, t);
  }

  lemma BinaryDenotes(pool: seq<Node>, op: Operator, a: nat, b: nat, t: Ast, u: Ast)
    requires Denotes(pool, a, t) && Denotes(pool, b, u)
    ensures a < |pool| && b < |pool| && Keeps(pool, pool + [BinaryNode(op, a, b)])
    ensures Denotes(pool + [BinaryNode(op, a, b)], |pool|, Bin(op, t, u))
  {
    KeepsTrees(pool, pool + [BinaryNode(op, a, b)], a, t);
    KeepsTrees(pool, pool + [BinaryNode(op, a, b)], b, u);
  }

  lemma {:induction false} KeepsTrees(pool: seq<Node>, pool': seq<Node>, p: nat, t: Ast)
    requires Keeps(pool, pool') && Denotes(pool, p, t)
    ensures Denotes(pool', p, t)
    decreases t
  {
    match t
    case Const(_) =>
    case Sym(_) =>
    case Un(_, e) =>
      KeepsTrees(pool, pool', pool[p].arg, e);
    case Bin(_, l, r) =>
      KeepsTrees(pool, pool', pool[p].left, l);
      KeepsTrees(pool, pool', pool[p].right, r);
  }

  function EvalNode(pool: seq<Node>, p: nat): Option<int>
    requires Acyclic(pool) && p < |pool|
    decreases p
  {
    match pool[p]
    case Literal(v) => Some(v)
    case Symbol(_, v) => Some(v)
    case UnaryNode(op, a) =>
      (match EvalNode(pool, a)
       case None => None
       case Some(x) => Some(ApplyUnary(op, x)))
    case BinaryNode(op, l, r) =>
      (match EvalNode(pool, l)
       case None => None
       case Some(x) =>
         if op == And && x == 0 then Some(0)
         else if op == Or && x != 0 then Some(1)
         else
           match EvalNode(pool, r)
           case None => None
           case Some(y) => ApplyBinary(op, x, y))
  }

  /** Evaluating the shared graph is evaluating the tree. */
  lemma {:induction false} GraphIsTree(pool: seq<Node>, p: nat, t: Ast, env: map<string, int>)
    requires Acyclic(pool) && Denotes(pool, p, t)
    requires forall i :: 0 <= i < |pool| && pool[i].Symbol? ==>
      pool[i].value == (if pool[i].name in env then env[pool[i].name] else 0)
    ensures EvalNode(pool, p) == Denote(t, env)
    decreases t
  {
    match t
    case Const(_) =>
    case Sym(_) =>
    case Un(_, e) =>
      GraphIsTree(pool, pool[p].arg, e, env);
    case Bin(_, l, r) =>
      GraphIsTree(pool, pool[p].left, l, env);
      GraphIsTree(pool, pool[p].right, r, env);
  }

  function LogNames(log: seq<Action>): set<string> {
    set i | 0 <= i < |log| && log[i].PushLeaf? && log[i].token.Name? :: log[i].token.text
  }

  function Names(t: Ast): set<string> {
    match t
    case Const(_) => {}
    case Sym(n) => {n}
    case Un(_, e) => Names(e)
    case Bin(_, l, r) => Names(l) + Names(r)
  }

  lemma LogNamesAppend(a: seq<Action>, b: seq<Action>)
    ensures LogNames(a + b) == LogNames(a) + LogNames(b)
  {
    forall n | n in LogNames(a) + LogNames(b) ensures n in LogNames(a + b) {
      if n in LogNames(a) {
        var i :| 0 <= i < |a| && a[i].PushLeaf? && a[i].token.Name? && a[i].token.text == n;
        assert (a + b)[i] == a[i];
      } else {
        var i :| 0 <= i < |b| && b[i].PushLeaf? && b[i].token.Name? && b[i].token.text == n;
        assert (a + b)[|a| + i] == b[i];
      }
    }
  }

  lemma {:induction false} NamesOfTree(t: Syntax)
    requires WellFormed(t)
    ensures LogNames(Actions(t)) == Names(AstOf(t))
  {
    match t
    case Leaf(k) =>
      assert Actions(t)[0] == PushLeaf(k);
    case Group(e) =>
      NamesOfTree(e);
      LogNamesAppend([Open] + Actions(e), [Close]);
      LogNamesAppend([Open], Actions(e));
    case Pre(p, e) =>
      NamesOfTree(e);
      LogNamesAppend(Actions(e), [Apply(Prefix(p))]);
    case Inf(p, l, r) =>
      NamesOfTree(l);
      NamesOfTree(r);
      LogNamesAppend(Actions(l) + Actions(r), [Apply(Infix(p))]);
      LogNamesAppend(Actions(l), Actions(r));
  }

  /** Outcome of DebugExpression::eval: a value, undefined arithmetic, or a value supplied for a
      name the expression does not have. */
  datatype Evaluation = Computed(result: int) | Undefined | UnknownName

  class DebugExpression {
    var expressions: seq<Node>
    var symbols: map<string, nat>
    var values: map<string, int>
    var staticValues: set<string>
    var root: Option<nat>
    var correct: bool
    /** Parsing popped an empty stack: nothing is known about the object from then on. */
    var undefined: bool

    /** One node per symbol name, and every symbol node is the node of its name. */
    ghost predicate Valid()
      reads this
    {
      && !undefined && Acyclic(expressions)
      && (forall n :: n in symbols ==>
            symbols[n] < |expressions| && expressions[symbols[n]].Symbol?
            && expressions[symbols[n]].name == n)
      && (forall i :: 0 <= i < |expressions| && expressions[i].Symbol? ==>
            expressions[i].name in symbols && symbols[expressions[i].name] == i)
      && (root.Some? ==> root.value < |expressions|)
    }

    /** What each symbol reads as: a supplied value, else the value its node holds. */
    ghost function Environment(): map<string, int>
      requires Valid()
      reads this
    {
      map n | n in symbols :: if n in values then values[n] else expressions[symbols[n]].value
    }

    /** correct() of the source. */
    predicate IsCorrect()
      reads this
    {
      correct && root.Some?
    }

    /** Accepted or not, the actions fired while parsing are carried out; a text that makes them
        pop an empty stack is recognized by a scan of its tokens. */
    constructor (text: string)
      ensures undefined <==> StopsBehindWaiting(Lex(text, 0))
      ensures !undefined ==> Valid() && values == map[] && staticValues == {}
      ensures !undefined ==> (IsCorrect() <==> Accepts(text)) && symbols.Keys == LogNames(Parse(text).log)
      ensures forall t :: WellFormed(t) && Yield(t) == Lex(text, 0) ==>
        Valid() && IsCorrect() && Denotes(expressions, root.value, AstOf(t)) && symbols.Keys == Names(AstOf(t))
      ensures !undefined ==> forall n :: n in symbols ==> expressions[symbols[n]].value == 0
    {
      hide Lex, Parse, WellFormed, Denotes, Steps, StopsBehindWaiting, LogNames, Names;
      expressions, symbols, values, staticValues := [], map[], map[], {};
      root, correct, undefined := None, true, false;
      new;
      var run := Parse(text);
      var state := new ParserState(this);
      var ran := state.ActAll(run.log);
      PopsEmptyStackExactly(text);
      forall t | WellFormed(t) && Yield(t) == Lex(text, 0)
        ensures ran && Accepts(text) && LogNames(run.log) == Names(AstOf(t))
        ensures state.Root().Some? && state.Root().value < |expressions|
        ensures Denotes(expressions, state.Root().value, AstOf(t))
      {
        AcceptedLeavesTheTree(text, t);
        FiresExactly(text, t);
        NamesOfTree(t);
        state.HoldsOne(AstOf(t));
      }
      AcceptsExactly(text);
      if !ran {
        undefined := true;
      } else if run.out.Ok? {
        root := state.Root();
      } else {
        correct := false;
      }
    }

    method AddExpression(n: Node) returns (p: nat)
      requires Valid() && !n.Symbol?
      requires n.UnaryNode? ==> n.arg < |expressions|
      requires n.BinaryNode? ==> n.left < |expressions| && n.right < |expressions|
      modifies this`expressions
      ensures Valid()
      ensures p == |old(expressions)| && expressions == old(expressions) + [n]
    {
      expressions := expressions + [n];
      p := |expressions| - 1;
    }

    /** A second use of a name returns the node of the first. */
    method AddSymbol(name: string) returns (p: nat)
      requires Valid()
      modifies this`expressions, this`symbols
      ensures Valid() && Keeps(old(expressions), expressions)
      ensures p < |expressions| && expressions[p].Symbol? && expressions[p].name == name
      ensures if name in old(symbols)
        then p == old(symbols)[name] && expressions == old(expressions) && symbols == old(symbols)
        else expressions == old(expressions) + [Symbol(name, 0)] && symbols == old(symbols)[name := p]
    {
      if name !in symbols {
        expressions := expressions + [Symbol(name, 0)];
        symbols := symbols[name := |expressions| - 1];
      }
      p := symbols[name];
    }

    method SetSymbol(name: string, value: int)
      requires Valid() && name in symbols
      modifies this`expressions
      ensures Valid() && Keeps(old(expressions), expressions)
      ensures expressions == old(expressions)[symbols[name] := Symbol(name, value)]
    {
      expressions := expressions[symbols[name] := Symbol(name, value)];
    }

    /** set_static_values: names the expression does not use are ignored. */
    method SetStaticValues(given: map<string, int>)
      requires Valid()
      modifies this`expressions, this`staticValues
      ensures Valid() && Keeps(old(expressions), expressions)
      ensures staticValues == old(staticValues) + (given.Keys * symbols.Keys)
      ensures forall n :: n in symbols ==>
        expressions[symbols[n]].value == (if n in given then given[n] else old(expressions)[symbols[n]].value)
    {
      hide Acyclic;
      var left := given.Keys;
      while left != {}
        invariant left <= given.Keys && Valid() && Keeps(old(expressions), expressions)
        invariant staticValues == old(staticValues) + ((given.Keys - left) * symbols.Keys)
        invariant forall n :: n in symbols ==>
          expressions[symbols[n]].value == (if n in given && n !in left then given[n] else old(expressions)[symbols[n]].value)
        decreases left
      {
        var n :| n in left;
        if n in symbols {
          SetSymbol(n, given[n]);
          staticValues := staticValues + {n};
        }
        left := left - {n};
      }
    }

    method SetValue(name: string, value: int)
      requires Valid()
      modifies this`values
      ensures Valid() && values == old(values)[name := value]
    {
      values := values[name := value];
    }

    /** eval: supply the values, then evaluate. For an accepted text the result is the value of
        the tree under the environment in force before the call. */
    method Eval() returns (r: Evaluation)
      requires Valid()
      modifies this`expressions
      ensures Valid() && Keeps(old(expressions), expressions)
      ensures root.None? ==> r == Computed(0)
      ensures root.Some? && !(values.Keys <= symbols.Keys) ==> r == UnknownName
      ensures root.Some? && values.Keys <= symbols.Keys ==>
        forall t :: Denotes(old(expressions), root.value, t) ==>
          r == match Denote(t, old(Environment())) case Some(v) => Computed(v) case None => Undefined
    {
      if root.None? {
        return Computed(0);
      }
      ghost var env := Environment();
      var left := values.Keys;
      while left != {}
        invariant left <= values.Keys && Valid() && Keeps(old(expressions), expressions)
        invariant values.Keys - left <= symbols.Keys
        invariant forall n :: n in symbols ==>
          expressions[symbols[n]].value == (if n in values && n !in left then values[n] else old(expressions)[symbols[n]].value)
        decreases left
      {
        var n :| n in left;
        if n !in symbols {
          return UnknownName;
        }
        SetSymbol(n, values[n]);
        left := left - {n};
      }
      var v := EvalNode(expressions, root.value);
      forall t | Denotes(old(expressions), root.value, t) ensures v == Denote(t, env) {
        KeepsTrees(old(expressions), expressions, root.value, t);
        GraphIsTree(expressions, root.value, t, env);
      }
      r := match v case Some(x) => Computed(x) case None => Undefined;
    }
  }

  class ParserState {
    const debug: DebugExpression
    var stacks: seq<seq<nat>>

    constructor (debug: DebugExpression)
      ensures this.debug == debug && stacks == [[]]
    {
      this.debug := debug;
      stacks := [[]];
    }

    /** The stacks hold pointers to the given trees. */
    ghost predicate Holds(st: Stacks)
      reads this, debug
    {
      && |stacks| == |st|
      && (forall i :: 0 <= i < |st| ==> |stacks[i]| == |st[i]|)
      && (forall i, j :: 0 <= i < |st| && 0 <= j < |st[i]| ==>
            Denotes(debug.expressions, stacks[i][j], st[i][j]))
    }

    lemma HoldsOn(st: Stacks, before: seq<Node>)
      requires Keeps(before, debug.expressions)
      requires |stacks| == |st| && forall i :: 0 <= i < |st| ==> |stacks[i]| == |st[i]|
      requires forall i, j :: 0 <= i < |st| && 0 <= j < |st[i]| ==>
        Denotes(before, stacks[i][j], st[i][j])
      ensures Holds(st)
    {
      forall i, j | 0 <= i < |st| && 0 <= j < |st[i]|
        ensures Denotes(debug.expressions, stacks[i][j], st[i][j])
      {
        KeepsTrees(before, debug.expressions, stacks[i][j], st[i][j]);
      }
    }

    lemma HoldsOne(t: Ast)
      requires Holds([[t]])
      ensures Root().Some? && Denotes(debug.expressions, Root().value, t) && Root().value < |debug.expressions|
    {
      assert [[t]][0][0] == t;
    }

    method PushPointer(p: nat, ghost st: Stacks, ghost t: Ast)
      requires Holds(st) && st != [] && Denotes(debug.expressions, p, t)
      modifies this`stacks
      ensures Holds(PushOn(st, t))
    {
      ghost var was := stacks;
      stacks := stacks[..|stacks| - 1] + [stacks[|stacks| - 1] + [p]];
      forall i, j | 0 <= i < |st| && 0 <= j < |PushOn(st, t)[i]|
        ensures Denotes(debug.expressions, stacks[i][j], PushOn(st, t)[i][j])
      {
        if i == |st| - 1 && j == |st[i]| {
          assert stacks[i][j] == p;
        } else {
          assert stacks[i][j] == was[i][j] && PushOn(st, t)[i][j] == st[i][j];
        }
      }
    }

    method PopPointers(count: nat, ghost st: Stacks)
      requires Holds(st) && st != [] && count <= |st[|st| - 1]|
      modifies this`stacks
      ensures Holds(Popped(st, count))
    {
      ghost var was := stacks;
      var top := stacks[|stacks| - 1];
      stacks := stacks[..|stacks| - 1] + [top[..|top| - count]];
      forall i, j | 0 <= i < |st| && 0 <= j < |Popped(st, count)[i]|
        ensures Denotes(debug.expressions, stacks[i][j], Popped(st, count)[i][j])
      {
        assert stacks[i][j] == was[i][j] && Popped(st, count)[i][j] == st[i][j];
      }
    }

    /** push(Expr*) for a literal or a symbol. */
    method PushToken(k: Token, ghost st: Stacks)
      requires debug.Valid() && Holds(st) && st != []
      modifies this, debug`expressions, debug`symbols
      ensures debug.Valid() && Holds(PushOn(st, LeafAst(k)))
      ensures Keeps(old(debug.expressions), debug.expressions)
      ensures debug.symbols.Keys == old(debug.symbols.Keys) + LogNames([PushLeaf(k)])
      ensures (forall n :: n in old(debug.symbols) ==> old(debug.expressions[debug.symbols[n]].value) == 0)
        ==> (forall n :: n in debug.symbols ==> debug.expressions[debug.symbols[n]].value == 0)
    {
      var p;
      assert [PushLeaf(k)][0] == PushLeaf(k);
      if k.Name? {
        p := debug.AddSymbol(k.text);
      } else {
        p := debug.AddExpression(Literal(LeafAst(k).value));
      }
      HoldsOn(st, old(debug.expressions));
      PushPointer(p, st, LeafAst(k));
    }

    /** push(Operator): the right operand is on top. */
    method PushOperator(op: Operator, ghost st: Stacks)
      requires debug.Valid() && Holds(st) && Step(st, Apply(op)).Some?
      modifies this, debug`expressions
      ensures debug.Valid() && Holds(Step(st, Apply(op)).value)
      ensures Keeps(old(debug.expressions), debug.expressions)
      ensures old(debug.expressions) <= debug.expressions
    {
      hide Denotes, Keeps, Acyclic, PushOn;
      var top := stacks[|stacks| - 1];
      var n := |top|;
      ghost var pool, trees := debug.expressions, st[|st| - 1];
      var p;
      if IsUnary(op) {
        UnaryDenotes(pool, op, top[n - 1], trees[n - 1]);
        p := debug.AddExpression(UnaryNode(op, top[n - 1]));
        HoldsOn(st, pool);
        PopPointers(1, st);
        PushPointer(p, Popped(st, 1), Un(op, trees[n - 1]));
      } else {
        BinaryDenotes(pool, op, top[n - 2], top[n - 1], trees[n - 2], trees[n - 1]);
        p := debug.AddExpression(BinaryNode(op, top[n - 2], top[n - 1]));
        HoldsOn(st, pool);
        PopPointers(2, st);
        PushPointer(p, Popped(st, 2), Bin(op, trees[n - 2], trees[n - 1]));
      }
    }

    method OpenGroup(ghost st: Stacks)
      requires Holds(st) && st != []
      modifies this
      ensures Holds(st + [[]])
    {
      stacks := stacks + [[]];
    }

    method CloseGroup(ghost st: Stacks)
      requires Holds(st) && Step(st, Close).Some?
      modifies this
      ensures Holds(Step(st, Close).value)
    {
      var p := stacks[|stacks| - 1][0];
      stacks := stacks[..|stacks| - 1];
      PushPointer(p, st[..|st| - 1], st[|st| - 1][0]);
    }

    function Root(): (r: Option<nat>)
      reads this
      ensures r.Some? <==> stacks != [] && |stacks[|stacks| - 1]| == 1
    {
      if stacks != [] && |stacks[|stacks| - 1]| == 1 then Some(stacks[|stacks| - 1][0]) else None
    }

    /** Whether the stacks hold what the action takes from them. */
    predicate CanAct(a: Action)
      reads this
    {
      stacks != [] &&
      var n := |stacks[|stacks| - 1]|;
      match a
      case Apply(op) => n >= (if IsUnary(op) then 1 else 2)
      case Close => n == 1 && |stacks| >= 2
      case _ => true
    }

    method Act(a: Action, ghost st: Stacks)
      requires debug.Valid() && Holds(st) && Step(st, a).Some?
      modifies this, debug`expressions, debug`symbols
      ensures debug.Valid() && Holds(Step(st, a).value)
      ensures debug.symbols.Keys == old(debug.symbols.Keys) + LogNames([a])
      ensures (forall n :: n in old(debug.symbols) ==> old(debug.expressions[debug.symbols[n]].value) == 0)
        ==> (forall n :: n in debug.symbols ==> debug.expressions[debug.symbols[n]].value == 0)
    {
      assert a.PushLeaf? || LogNames([a]) == {};
      match a {
        case PushLeaf(k) => PushToken(k, st);
        case Apply(op) => PushOperator(op, st);
        case Open => OpenGroup(st);
        case Close => CloseGroup(st);
      }
    }

    /** Carries out the actions a parse fired, in order. False: one of them would have taken an
        expression from an empty stack. */
    method ActAll(log: seq<Action>) returns (ran: bool)
      requires stacks == [[]] && debug.Valid() && debug.symbols == map[]
      modifies this, debug`expressions, debug`symbols
      ensures debug.Valid()
      ensures ran <==> Steps([[]], log).Some?
      ensures ran ==> Holds(Steps([[]], log).value) && debug.symbols.Keys == LogNames(log)
      ensures forall n :: n in debug.symbols ==> debug.expressions[debug.symbols[n]].value == 0
    {
      var i := 0;
      ghost var st: Stacks := [[]];
      while i < |log|
        invariant 0 <= i <= |log|
        invariant debug.Valid() && Holds(st)
        invariant Steps([[]], log) == Steps(st, log[i..])
        invariant debug.symbols.Keys == LogNames(log[..i])
        invariant forall n :: n in debug.symbols ==> debug.expressions[debug.symbols[n]].value == 0
      {
        assert log[i..][0] == log[i] && log[i..][1..] == log[i + 1..];
        if !CanAct(log[i]) {
          return false;
        }
        LogNamesAppend(log[..i], [log[i]]);
        assert log[..i + 1] == log[..i] + [log[i]];
        Act(log[i], st);
        st := Step(st, log[i]).value;
        i := i + 1;
      }
      assert log[..i] == log;
      return true;
    }
  }
}
