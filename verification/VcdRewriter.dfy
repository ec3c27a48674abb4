/** Rewriting a value change dump: VCDReWriter of tools/hgdb-rewrite-vcd/hgdb-rewrite-vcd.cc. */
module VcdRewriter {
  import opened Common
  import opened Tokens
  import opened VcdText
  import opened VcdRoundTrip
  import opened VcdTree
  import opened VcdSignals

  /** A row of the symbol table: instance name, name in the dump, name in the source. */
  datatype Row = Row(instanceName: string, rtlName: string, varName: string)

  class VCDReWriter {
    var scopes: seq<Node>
    var vars: seq<Var>
    var scopesStack: seq<nat>
    var stream: string

    constructor ()
      ensures State() == NOTHING && stream == ""
    {
      scopes, vars, scopesStack, stream := [], [], [], "";
    }

    ghost function T(): Tables
      reads this`scopes, this`vars
    {
      Tables(scopes, vars)
    }

    ghost function State(): Reading
      reads this`scopes, this`vars, this`scopesStack
    {
      Reading(T(), scopesStack)
    }

    /** on_scope_def. */
    method OnScopeDef(kind: string, name: string)
      requires scopes == [] || (scopesStack != [] && scopesStack[|scopesStack| - 1] < |scopes|)
      modifies this`scopes, this`scopesStack
      ensures Heard(old(State()), EnterScope(kind, name)) == Some(State())
    {
      var n := |scopes|;
      if n == 0 {
        scopes := [Node(kind, name, [], [], None)];
      } else {
        var parent := scopesStack[|scopesStack| - 1];
        scopes := scopes[parent := scopes[parent].(scopes := scopes[parent].scopes + [n])];
        scopes := scopes + [Node(kind, name, [], [], Some(parent))];
      }
      scopesStack := scopesStack + [n];
    }

    /** on_var_def. */
    method OnVarDef(def: Var)
      requires scopesStack != [] && scopesStack[|scopesStack| - 1] < |scopes|
      modifies this`scopes, this`vars
      ensures Heard(old(State()), VarEvent(def)) == Some(State())
    {
      var top := scopesStack[|scopesStack| - 1];
      scopes := scopes[top := scopes[top].(vars := scopes[top].vars + [Some(|vars|)])];
      vars := vars + [def];
    }

    method OnExitScope()
      requires scopesStack != []
      modifies this`scopesStack
      ensures Heard(old(State()), ExitScope) == Some(State())
    {
      scopesStack := scopesStack[..|scopesStack| - 1];
    }

    /** get_scope: follows the names after the first one down from parent. */
    method GetScope(parent: nat, designName: string) returns (r: Option<nat>)
      requires parent < |scopes| && Shape(T())
      ensures r == FindScope(T(), parent, Following(TokensOf(designName, ".")))
      ensures r.Some? ==> r.value < |scopes|
    {
      hide Shape, TokensOf;
      var tokens := GetTokens(designName, ".");
      ghost var names := Following(tokens);
      var scope: nat := parent;
      var i := 1;
      while i < |tokens|
        invariant scope < |scopes| && 1 <= i && (i == 1 || i <= |tokens|)
        invariant FindScope(T(), parent, names) == FindScope(T(), scope, Following(tokens[i - 1..]))
      {
        var found := false;
        var cs := scopes[scope].scopes;
        ghost var rest := Following(tokens[i - 1..]);
        assert rest == tokens[i..] && rest[0] == tokens[i] && rest[1..] == tokens[i + 1..];
        ListsScopes(T(), scope);
        for k := 0 to |cs|
          invariant !found && scope < |scopes|
          invariant FirstNamed(T(), cs, tokens[i]) == FirstNamed(T(), cs[k..], tokens[i])
        {
          if scopes[cs[k]].name == tokens[i] {
            scope := cs[k];
            found := true;
            break;
          }
          assert cs[k..][1..] == cs[k + 1..];
        }
        if !found {
          return None;
        }
        assert Following(tokens[i..]) == tokens[i + 1..];
        i := i + 1;
      }
      r := Some(scope);
    }

    /** get_var. Looking for one word of a name never goes anywhere, so the variable is looked for
        in parent itself, by the last word. */
    method GetVar(parent: nat, varName: string) returns (r: Option<(nat, nat)>)
      requires parent < |scopes| && Shape(T()) && TokensOf(varName, ".") != []
      ensures r == Found(T(), parent, TokensOf(varName, "."))
    {
      var tokens := GetTokens(varName, ".");
      var parentScope: nat := parent;
      var index := 0;
      TokensAreWords(varName, ".");
      while index < |tokens|
        invariant index <= |tokens| && parentScope == parent
      {
        assert tokens[index] in tokens;
        OneToken(tokens[index], ".");
        var scope := GetScope(parentScope, tokens[index]);
        if scope.None? {
          break;
        }
        parentScope := scope.value;
        index := index + 1;
      }
      var name := Join(tokens[index - 1..], '.');
      assert tokens[index - 1..] == [Last(tokens)];
      assert Lists(T(), parentScope);
      for i := 0 to |scopes[parentScope].vars|
        invariant forall k :: 0 <= k < i ==> !IsNamed(T(), scopes[parent].vars[k], name)
      {
        var v := scopes[parentScope].vars[i];
        if v.Some? && vars[v.value].name == name {
          FirstVarIs(T(), scopes[parent].vars, name, i);
          return Some((parentScope, i));
        }
      }
      FirstVarIs(T(), scopes[parent].vars, name, |scopes[parent].vars|);
      r := None;
    }

    /** insert_new_var: the scopes on the way are found or made, and the variable gets its last
        name. */
    method InsertNewVar(parentScope: nat, v: nat, name: string) returns (ghost home: nat)
      requires Shape(T()) && parentScope < |scopes| && v < |vars| && TokensOf(name, ".") != []
      modifies this`scopes, this`vars
      ensures Shape(T()) && OnlyAdds(old(T()), T())
      ensures Total(T(), 0) == Total(old(T()), 0) + multiset{SignalOf(old(vars)[v])}
      ensures Leads(T(), parentScope, Front(TokensOf(name, ".")), home) && home < |scopes|
      ensures vars == old(vars)[v := old(vars)[v].(name := Last(TokensOf(name, ".")))]
      ensures |old(scopes)| <= |scopes|
      ensures forall i :: 0 <= i < |scopes| ==>
        scopes[i].vars == VarsIn(old(T()), i) + if i == home then [Some(v)] else []
      ensures WritableTables(old(T())) && Unbroken(name) ==> WritableTables(T())
    {
      hide Shape, Total, OnlyAdds, Leads, WritableTables;
      var tokens := GetTokens(name, ".");
      var scope: nat := parentScope;
      StepsOnlyAdd(T());
      LeadsNowhere(T(), scope);
      if Unbroken(name) { PartsUnbroken(name); }
      for i := 0 to |tokens| - 1
        invariant Shape(T()) && scope < |scopes| && vars == old(vars) && OnlyAdds(old(T()), T())
        invariant Total(T(), 0) == Total(old(T()), 0)
        invariant |old(scopes)| <= |scopes| && Leads(T(), parentScope, tokens[..i], scope)
        invariant WritableTables(old(T())) && Unbroken(name) ==> WritableTables(T())
        invariant forall i :: 0 <= i < |scopes| ==> scopes[i].vars == VarsIn(old(T()), i)
      {
        ghost var t, from := T(), scope;
        scope := EnterOrMake(scope, tokens[i]);
        OnlyAddsTwice(old(T()), t, T());
        LeadsOn(t, T(), parentScope, tokens[..i], from);
        LeadsFurther(T(), parentScope, tokens, i, scope);
      }
      ghost var t := T();
      VarIsAdded(t, scope, v, Last(tokens));
      StepsOnlyAdd(t);
      vars := vars[v := vars[v].(name := Last(tokens))];
      scopes := scopes[scope := scopes[scope].(vars := scopes[scope].vars + [Some(v)])];
      assert T() == WithVar(t, scope, v, Last(tokens));
      OnlyAddsTwice(old(T()), t, T());
      LeadsOn(t, T(), parentScope, Front(tokens), scope);
      VarStaysWritable(t, scope, v, Last(tokens));
      home := scope;
    }

    /** One step of the way: the first child of that name, or a new one. */
    method EnterOrMake(scope: nat, name: string) returns (r: nat)
      requires Shape(T()) && scope < |scopes|
      modifies this`scopes
      ensures Shape(T()) && r < |scopes| && Total(T(), 0) == Total(old(T()), 0)
      ensures scopes[r].name == name && scopes[r].parent == Some(scope)
      ensures OnlyAdds(old(T()), T()) && |old(scopes)| <= |scopes|
      ensures forall i :: 0 <= i < |scopes| ==> scopes[i].vars == VarsIn(old(T()), i)
      ensures WritableTables(old(T())) && IsWord(name) ==> WritableTables(T())
    {
      hide Total, OnlyAdds, WritableTables;
      var cs := scopes[scope].scopes;
      assert Lists(T(), scope);
      StepsOnlyAdd(T());
      for k := 0 to |cs|
        invariant T() == old(T())
      {
        assert cs[k] in cs;
        if scopes[cs[k]].name == name {
          return cs[k];
        }
      }
      ghost var t := T();
      ScopeKeepsShape(t, scope, "module", name);
      ScopeAddsNothing(t, scope, "module", name, 0);
      r := |scopes|;
      scopes := scopes[scope := scopes[scope].(scopes := scopes[scope].scopes + [r])];
      scopes := scopes + [Node("module", name, [], [], Some(scope))];
      assert T() == WithScope(t, scope, "module", name);
      ScopeStaysWritable(t, scope, name);
    }

    /** remap_definition: whatever the table says, the signals under the root stay the same, and
        scopes are only added to the tree. */
    method RemapDefinition(designRoot: nat, rows: seq<Row>)
      requires Shape(T()) && designRoot < |scopes|
      requires forall r :: r in rows ==> TokensOf(r.rtlName, ".") != [] && TokensOf(r.varName, ".") != []
      modifies this`scopes, this`vars
      ensures Shape(T()) && OnlyAdds(old(T()), T())
      ensures SignalsOf(TreeOf(T(), 0)) == SignalsOf(TreeOf(old(T()), 0))
      ensures WritableTables(old(T())) && (forall r :: r in rows ==> Unbroken(r.varName)) ==>
        WritableScope(TreeOf(T(), 0))
    {
      hide Shape, OnlyAdds, SignalsOf, TreeOf, WritableTables;
      StepsOnlyAdd(T());
      for k := 0 to |rows|
        invariant Shape(T()) && OnlyAdds(old(T()), T()) && designRoot < |scopes|
        invariant Total(T(), 0) == Total(old(T()), 0)
        invariant WritableTables(old(T())) && (forall r :: r in rows ==> Unbroken(r.varName)) ==> WritableTables(T())
      {
        ghost var t := T();
        var row := rows[k];
        assert row in rows;
        ghost var home := RemapOne(designRoot, row);
        OnlyAddsTwice(old(T()), t, T());
      }
      ShapeHasRoot(T());
      if WritableTables(T()) { TreeIsWritable(T(), 0); }
    }

    /** One row: the variable that get_var finds in the scope of the instance is moved, and nothing
        else; without such a scope or variable nothing happens at all. */
    method RemapOne(designRoot: nat, row: Row) returns (ghost home: nat)
      requires Shape(T()) && designRoot < |scopes|
      requires TokensOf(row.rtlName, ".") != [] && TokensOf(row.varName, ".") != []
      modifies this`scopes, this`vars
      ensures Shape(T()) && OnlyAdds(old(T()), T()) && |old(scopes)| <= |scopes|
      ensures match Chosen(old(T()), designRoot, row)
        case None => T() == old(T())
        case Some((p, k)) => Relocated(old(T()), T(), p, k, row.varName, home)
      ensures Total(T(), 0) == Total(old(T()), 0)
      ensures WritableTables(old(T())) && Unbroken(row.varName) ==> WritableTables(T())
    {
      hide Shape, OnlyAdds, Total, WritableTables, Leads;
      home := 0;
      StepsOnlyAdd(T());
      var scope := GetScope(designRoot, row.instanceName);
      if scope.None? {
        return;
      }
      var at := GetVar(scope.value, row.rtlName);
      if at.None? {
        return;
      }
      var (parentScope, index) := at.value;
      ListsVars(T(), parentScope);
      var v := scopes[parentScope].vars[index].value;
      home := InsertNewVar(parentScope, v, row.varName);
      ghost var t := T();
      AddsKeep(old(T()), t);
      ListsVars(t, parentScope);
      VarIsRemoved(t, parentScope, index);
      StepsOnlyAdd(t);
      scopes := scopes[parentScope := scopes[parentScope].(vars := scopes[parentScope].vars[index := None])];
      assert T() == WithoutVar(t, parentScope, index);
      PlaceStaysWritable(t, parentScope, index);
      Cancel(Total(T(), 0), Total(old(T()), 0), multiset{SignalOf(t.vars[v])});
      OnlyAddsTwice(old(T()), t, T());
      LeadsOn(t, T(), parentScope, Front(TokensOf(row.varName, ".")), home);
    }

    /** serialize: a scope's variables, then its child scopes, in order. */
    method Serialize(scope: nat)
      requires Shape(T()) && scope < |scopes|
      modifies this`stream
      ensures stream == old(stream) + ScopeText(TreeOf(T(), scope))
      decreases |scopes| - scope
    {
      hide ScopeText, VarText, Line, TreeOf, Shape, VarsText, ScopesText, VarsAt, TreesOf;
      ghost var t := T();
      var n := scopes[scope];
      stream := stream + Line(["$scope", n.kind, n.name, "$end"]);
      ghost var head := stream;
      ListsVars(t, scope);
      ListsScopes(t, scope);
      NoText(t, scope);
      for k := 0 to |scopes[scope].vars|
        invariant stream == head + VarsText(VarsAt(vars, scopes[scope].vars[..k]))
      {
        var ref := scopes[scope].vars[k];
        NextVarText(vars, scopes[scope].vars, k);
        if ref.Some? {
          stream := stream + VarText(vars[ref.value]);
        }
      }
      assert n.vars[..|n.vars|] == n.vars;
      stream := stream + "\n";
      ghost var middle := stream;
      for k := 0 to |scopes[scope].scopes|
        invariant stream == middle + ScopesText(TreesOf(t, scope, scopes[scope].scopes[..k]))
      {
        NextScopeText(t, scope, scopes[scope].scopes, k);
        Serialize(scopes[scope].scopes[k]);
      }
      assert n.scopes[..|n.scopes|] == n.scopes;
      stream := stream + Line(["$upscope", "$end"]);
      TextInParts(t, scope);
    }
  }

  /** The variables a scope lists; none if it is not there yet. */
  function VarsIn(t: Tables, i: nat): seq<Option<nat>> {
    if i < |t.scopes| then t.scopes[i].vars else []
  }

  /** The variable at place k of scope p is gone from there and listed last, under the last word of
      the name, in the scope the other words lead to from p; nothing else is moved or renamed. */
  ghost predicate Relocated(t: Tables, u: Tables, p: nat, k: nat, name: string, home: nat)
    requires TokensOf(name, ".") != []
  {
    && p < |t.scopes| && k < |t.scopes[p].vars| && t.scopes[p].vars[k].Some?
    && var v := t.scopes[p].vars[k].value;
       && v < |t.vars| && home < |u.scopes| && Leads(u, p, Front(TokensOf(name, ".")), home)
       && u.vars == t.vars[v := t.vars[v].(name := Last(TokensOf(name, ".")))]
       && forall i :: 0 <= i < |u.scopes| ==>
            u.scopes[i].vars ==
              (if i == p then t.scopes[p].vars[k := None] else VarsIn(t, i)) + if i == home then [Some(v)] else []
  }

  /** All words but the first. */
  function Following(words: seq<string>): seq<string> {
    if words == [] then [] else words[1..]
  }

  function FirstNamed(t: Tables, cs: seq<nat>, name: string): Option<nat> {
    if cs == [] then None
    else if cs[0] < |t.scopes| && t.scopes[cs[0]].name == name then Some(cs[0])
    else FirstNamed(t, cs[1..], name)
  }

  /** The scope that a path of names leads to. */
  function FindScope(t: Tables, i: nat, names: seq<string>): Option<nat>
    decreases |names|
  {
    if names == [] then Some(i)
    else if i >= |t.scopes| then None
    else match FirstNamed(t, t.scopes[i].scopes, names[0])
      case None => None
      case Some(c) => FindScope(t, c, names[1..])
  }

  /** The first place in a list of variables that holds one of that name. */
  function FirstVar(t: Tables, refs: seq<Option<nat>>, name: string): (k: Option<nat>)
    ensures k.Some? ==> k.value < |refs| && IsNamed(t, refs[k.value], name)
    ensures forall i :: 0 <= i < (if k.Some? then k.value else |refs|) ==> !IsNamed(t, refs[i], name)
  {
    if refs == [] then None
    else if IsNamed(t, refs[0], name) then Some(0)
    else match FirstVar(t, refs[1..], name)
      case None => None
      case Some(k) => Some(k + 1)
  }

  lemma FirstVarIs(t: Tables, refs: seq<Option<nat>>, name: string, k: nat)
    requires k <= |refs| && forall i :: 0 <= i < k ==> !IsNamed(t, refs[i], name)
    requires k < |refs| ==> IsNamed(t, refs[k], name)
    ensures FirstVar(t, refs, name) == if k < |refs| then Some(k) else None
  {
  }

  /** Where get_var finds a variable: in the scope it starts from, by the last word. */
  function Found(t: Tables, i: nat, words: seq<string>): Option<(nat, nat)>
    requires i < |t.scopes| && words != []
  {
    match FirstVar(t, t.scopes[i].vars, Last(words))
    case None => None
    case Some(k) => Some((i, k))
  }

  /** The place of the variable a row of the table moves. */
  function Chosen(t: Tables, designRoot: nat, row: Row): Option<(nat, nat)>
    requires TokensOf(row.rtlName, ".") != []
  {
    match FindScope(t, designRoot, Following(TokensOf(row.instanceName, ".")))
    case None => None
    case Some(s) => if s < |t.scopes| then Found(t, s, TokensOf(row.rtlName, ".")) else None
  }

  /** The first variable the scope still lists under that name. */
  lemma FoundExactly(t: Tables, i: nat, words: seq<string>, k: nat)
    requires Shape(t) && i < |t.scopes| && words != []
    ensures Found(t, i, words) == Some((i, k)) <==>
      && k < |t.scopes[i].vars| && HasName(t, i, k, Last(words))
      && forall l: nat :: l < k ==> !HasName(t, i, l, Last(words))
    ensures Found(t, i, words).Some? ==> Found(t, i, words).value.0 == i
  {
    forall l: nat | l < |t.scopes[i].vars|
      ensures HasName(t, i, l, Last(words)) <==> IsNamed(t, t.scopes[i].vars[l], Last(words))
    {
    }
  }

  ghost predicate HasName(t: Tables, i: nat, k: nat, name: string)
    requires i < |t.scopes| && k < |t.scopes[i].vars|
  {
    match t.scopes[i].vars[k]
    case None => false
    case Some(v) => v < |t.vars| && t.vars[v].name == name
  }

  /** Where it is meant to: by the last word, in the scope the other words lead to. */
  function Meant(t: Tables, i: nat, words: seq<string>): Option<(nat, nat)>
    requires words != []
  {
    match FindScope(t, i, Front(words))
    case None => None
    case Some(s) => if s < |t.scopes| then Found(t, s, words) else None
  }

  /** What is found is where the names lead. */
  lemma {:induction false} FindsWhereNamesLead(t: Tables, i: nat, names: seq<string>)
    requires Shape(t) && i < |t.scopes| && FindScope(t, i, names).Some?
    ensures Leads(t, i, names, FindScope(t, i, names).value)
    decreases |names|
  {
    if names != [] {
      assert Lists(t, i);
      FirstNamedIs(t, t.scopes[i].scopes, names[0]);
      var c := FirstNamed(t, t.scopes[i].scopes, names[0]).value;
      FindsWhereNamesLead(t, c, names[1..]);
      LeadsFrom(t, i, c, names, FindScope(t, i, names).value);
    }
  }

  lemma {:induction false} FirstNamedIs(t: Tables, cs: seq<nat>, name: string)
    ensures FirstNamed(t, cs, name).Some? ==>
      var c := FirstNamed(t, cs, name).value; c in cs && c < |t.scopes| && t.scopes[c].name == name
    ensures FirstNamed(t, cs, name).None? ==> forall c :: c in cs && c < |t.scopes| ==> t.scopes[c].name != name
  {
    if cs != [] { FirstNamedIs(t, cs[1..], name); }
  }

  /** Through a child of that name, the names lead on from the scope. */
  lemma {:induction false} LeadsFrom(t: Tables, i: nat, c: nat, names: seq<string>, s: nat)
    requires i < |t.scopes| && c < |t.scopes| && names != [] && t.scopes[c].name == names[0]
    requires t.scopes[c].parent == Some(i) && Leads(t, c, names[1..], s)
    ensures Leads(t, i, names, s)
    decreases |names|
  {
    if |names| > 1 {
      var front := names[..|names| - 1];
      assert names[1..][..|names[1..]| - 1] == front[1..];
      LeadsFrom(t, i, c, front, t.scopes[s].parent.value);
    } else {
      assert names[..0] == [];
    }
  }

  /** No two scopes of one parent share a name. */
  ghost predicate SiblingsDiffer(t: Tables) {
    forall c, d :: 0 <= c < d < |t.scopes| && t.scopes[c].parent == t.scopes[d].parent ==>
      t.scopes[c].name != t.scopes[d].name
  }

  /** And without scopes of one name side by side, the scope that names lead to is found. */
  lemma {:induction false} FindsThePath(t: Tables, i: nat, names: seq<string>, s: nat)
    requires Shape(t) && SiblingsDiffer(t) && i < |t.scopes| && s < |t.scopes| && Leads(t, i, names, s)
    ensures FindScope(t, i, names) == Some(s)
    decreases |names|
  {
    if names != [] {
      var c := FirstStep(t, i, names, s);
      assert Lists(t, i);
      FirstNamedIs(t, t.scopes[i].scopes, names[0]);
      var d := FirstNamed(t, t.scopes[i].scopes, names[0]).value;
      assert d == c;
      FindsThePath(t, c, names[1..], s);
    }
  }

  lemma {:induction false} FirstStep(t: Tables, i: nat, names: seq<string>, s: nat) returns (c: nat)
    requires Shape(t) && i < |t.scopes| && s < |t.scopes| && names != [] && Leads(t, i, names, s)
    ensures c < |t.scopes| && c in t.scopes[i].scopes && t.scopes[c].parent == Some(i)
    ensures t.scopes[c].name == names[0] && Leads(t, c, names[1..], s)
    decreases |names|
  {
    assert s > 0 && InPlace(t, s);
    var p := t.scopes[s].parent.value;
    var front := names[..|names| - 1];
    if |names| > 1 {
      c := FirstStep(t, i, front, p);
      assert names[1..][..|names[1..]| - 1] == front[1..];
    } else {
      c := s;
    }
  }

  /** The scope of an instance is found by its path below the design root, whatever the root is called
      in the symbol table. */
  lemma FindsTheInstance(t: Tables, designRoot: nat, top: string, names: seq<string>, s: nat)
    requires Shape(t) && SiblingsDiffer(t) && designRoot < |t.scopes| && s < |t.scopes|
    requires Leads(t, designRoot, names, s)
    requires IsToken(top, ".") && forall k :: 0 <= k < |names| ==> IsToken(names[k], ".")
    ensures FindScope(t, designRoot, Following(TokensOf(Join([top] + names, '.'), "."))) == Some(s)
  {
    var all := [top] + names;
    forall w | w in all ensures IsToken(w, ['.']) {
      assert ['.'] == ".";
      var k :| 0 <= k < |all| && all[k] == w;
      assert k > 0 ==> w == names[k - 1];
    }
    SplitOfJoin(all, '.');
    assert ['.'] == "." && all[1..] == names;
    FindsThePath(t, designRoot, names, s);
  }

  /** Names lead to later scopes. */
  lemma {:induction false} FindsLater(t: Tables, i: nat, names: seq<string>)
    requires Shape(t) && i < |t.scopes| && FindScope(t, i, names).Some?
    ensures i <= FindScope(t, i, names).value && (names != [] ==> i < FindScope(t, i, names).value)
    decreases |names|
  {
    if names != [] {
      assert Lists(t, i);
      FirstNamedIsListed(t, t.scopes[i].scopes, names[0]);
      FindsLater(t, FirstNamed(t, t.scopes[i].scopes, names[0]).value, names[1..]);
    }
  }

  lemma {:induction false} FirstNamedIsListed(t: Tables, cs: seq<nat>, name: string)
    ensures FirstNamed(t, cs, name).Some? ==>
      FirstNamed(t, cs, name).value in cs && FirstNamed(t, cs, name).value < |t.scopes|
  {
    if cs != [] { FirstNamedIsListed(t, cs[1..], name); }
  }

  /** get_var finds what it is meant to find if and only if the name has one word, or there is
      nothing to be found either way. */
  lemma FindsWhatIsMeantExactly(t: Tables, i: nat, words: seq<string>)
    requires Shape(t) && i < |t.scopes| && words != []
    ensures Found(t, i, words) == Meant(t, i, words)
      <==> |words| == 1 || (Found(t, i, words).None? && Meant(t, i, words).None?)
  {
    if |words| == 1 {
      assert Front(words) == [];
    } else if Meant(t, i, words).Some? {
      FindsLater(t, i, Front(words));
    }
  }

  /** A scope with a variable c of its own, and a child scope b with another one. */
  const TWO_CS: Tables := Tables(
    [Node("module", "top", [1], [Some(0)], None), Node("module", "b", [], [Some(1)], Some(0))],
    [Var("wire", 1, "!", "c", ""), Var("wire", 1, "%", "c", "")])

  /** Asked for b.c, get_var finds the c of the scope itself. */
  lemma FindsTheWrongOne()
    ensures Shape(TWO_CS)
    ensures Found(TWO_CS, 0, TokensOf("b.c", ".")) == Some((0, 0))
    ensures Meant(TWO_CS, 0, TokensOf("b.c", ".")) == Some((1, 0))
  {
    hide TokensOf;
    TokensOfBC();
    assert Lists(TWO_CS, 0) && Lists(TWO_CS, 1) && InPlace(TWO_CS, 1);
    FoundC();
  }

  lemma TokensOfBC()
    ensures TokensOf("b.c", ".") == ["b", "c"]
  {
    var words := ["b", "c"];
    SplitOfJoin(words, '.');
    assert words[1..] == ["c"] && Join(["c"], '.') == "c" && Join(words, '.') == "b.c";
  }

  lemma FoundC()
    ensures Found(TWO_CS, 0, ["b", "c"]) == Some((0, 0)) && Meant(TWO_CS, 0, ["b", "c"]) == Some((1, 0))
  {
    var t, words, front := TWO_CS, ["b", "c"], ["b"];
    assert Front(words) == front && front[1..] == [];
    assert FirstNamed(t, [1], "b") == Some(1);
    assert FindScope(t, 0, front) == Some(1);
    assert IsNamed(t, Some(0), "c") && IsNamed(t, Some(1), "c");
  }

  /** A variable that is there and has that name. */
  predicate IsNamed(t: Tables, ref: Option<nat>, name: string) {
    ref.Some? && ref.value < |t.vars| && t.vars[ref.value].name == name
  }

  function Last(words: seq<string>): string
    requires words != []
  {
    words[|words| - 1]
  }

  lemma AddsKeep(t: Tables, u: Tables)
    requires OnlyAdds(t, u)
    ensures |t.scopes| <= |u.scopes| && |u.vars| == |t.vars|
    ensures forall k :: 0 <= k < |t.vars| ==> SignalOf(u.vars[k]) == SignalOf(t.vars[k])
  {
  }

  function Front(words: seq<string>): seq<string>
    requires words != []
  {
    words[..|words| - 1]
  }

  /** The names lead from scope top down to scope s. */
  ghost predicate Leads(t: Tables, top: nat, names: seq<string>, s: nat)
    decreases |names|
  {
    if names == [] then s == top
    else
      && s < |t.scopes| && t.scopes[s].name == names[|names| - 1] && t.scopes[s].parent.Some?
      && Leads(t, top, names[..|names| - 1], t.scopes[s].parent.value)
  }

  lemma LeadsNowhere(t: Tables, s: nat)
    ensures Leads(t, s, [], s)
  {
  }

  lemma {:induction false} LeadsOn(t: Tables, u: Tables, top: nat, names: seq<string>, s: nat)
    requires OnlyAdds(t, u) && Leads(t, top, names, s)
    ensures Leads(u, top, names, s)
    decreases |names|
  {
    if names != [] { LeadsOn(t, u, top, names[..|names| - 1], t.scopes[s].parent.value); }
  }

  lemma LeadsFurther(t: Tables, top: nat, names: seq<string>, i: nat, s: nat)
    requires i < |names| && s < |t.scopes| && t.scopes[s].name == names[i] && t.scopes[s].parent.Some?
    requires Leads(t, top, names[..i], t.scopes[s].parent.value)
    ensures Leads(t, top, names[..i + 1], s)
  {
    var more := names[..i + 1];
    assert |more| == i + 1 && more[|more| - 1] == names[i] && more[..|more| - 1] == names[..i];
  }

  lemma ListsVars(t: Tables, i: nat)
    requires Shape(t) && i < |t.scopes|
    ensures forall k :: 0 <= k < |t.scopes[i].vars| && t.scopes[i].vars[k].Some? ==>
      t.scopes[i].vars[k].value < |t.vars|
  {
    assert Lists(t, i);
  }

  lemma ListsScopes(t: Tables, i: nat)
    requires Shape(t) && i < |t.scopes|
    ensures forall k :: 0 <= k < |t.scopes[i].scopes| ==> i < t.scopes[i].scopes[k] < |t.scopes|
  {
    assert Lists(t, i);
    assert forall k :: 0 <= k < |t.scopes[i].scopes| ==> t.scopes[i].scopes[k] in t.scopes[i].scopes;
  }

  lemma NoText(t: Tables, i: nat)
    requires i < |t.scopes|
    ensures VarsText(VarsAt(t.vars, [])) == "" && ScopesText(TreesOf(t, i, [])) == ""
  {
  }

  lemma {:induction false} VarsTextCat(a: seq<Var>, b: seq<Var>)
    ensures VarsText(a + b) == VarsText(a) + VarsText(b)
    decreases |a|
  {
    hide VarText;
    if a == [] {
      assert a + b == b;
    } else {
      assert (a + b)[0] == a[0] && (a + b)[1..] == a[1..] + b;
      assert VarsText(a + b) == VarText(a[0]) + VarsText(a[1..] + b);
      assert VarsText(a) == VarText(a[0]) + VarsText(a[1..]);
      hide *;
      VarsTextCat(a[1..], b);
    }
  }

  lemma {:induction false} ScopesTextCat(a: seq<Scope>, b: seq<Scope>)
    ensures ScopesText(a + b) == ScopesText(a) + ScopesText(b)
    decreases |a|
  {
    hide ScopeText;
    if a == [] {
      assert a + b == b;
    } else {
      assert (a + b)[0] == a[0] && (a + b)[1..] == a[1..] + b;
      assert ScopesText(a + b) == ScopeText(a[0]) + ScopesText(a[1..] + b);
      assert ScopesText(a) == ScopeText(a[0]) + ScopesText(a[1..]);
      hide *;
      ScopesTextCat(a[1..], b);
    }
  }

  lemma NextVarText(vs: seq<Var>, refs: seq<Option<nat>>, k: nat)
    requires k < |refs| && (refs[k].Some? ==> refs[k].value < |vs|)
    ensures VarsText(VarsAt(vs, refs[..k + 1])) ==
      VarsText(VarsAt(vs, refs[..k])) + if refs[k].Some? then VarText(vs[refs[k].value]) else ""
  {
    hide VarsText, VarsAt, VarText;
    assert refs[..k + 1] == refs[..k] + [refs[k]];
    VarsCat(vs, refs[..k], [refs[k]]);
    VarsTextCat(VarsAt(vs, refs[..k]), VarsAt(vs, [refs[k]]));
    OneVarText(vs, refs[k]);
  }

  lemma OneVarText(vs: seq<Var>, ref: Option<nat>)
    requires ref.Some? ==> ref.value < |vs|
    ensures VarsText(VarsAt(vs, [ref])) == if ref.Some? then VarText(vs[ref.value]) else ""
  {
    hide VarText;
    var one := [ref];
    assert |one[1..]| == 0;
    if ref.Some? {
      var v := [vs[ref.value]];
      assert VarsAt(vs, one) == v && |v[1..]| == 0;
      assert VarsText(v) == VarText(v[0]) + "";
    }
  }

  lemma NextScopeText(t: Tables, i: nat, cs: seq<nat>, k: nat)
    requires i < |t.scopes| && k < |cs| && i < cs[k] < |t.scopes|
    ensures ScopesText(TreesOf(t, i, cs[..k + 1])) ==
      ScopesText(TreesOf(t, i, cs[..k])) + ScopeText(TreeOf(t, cs[k]))
  {
    assert cs[..k + 1] == cs[..k] + [cs[k]];
    TreesCat(t, i, cs[..k], [cs[k]]);
    ScopesTextCat(TreesOf(t, i, cs[..k]), TreesOf(t, i, [cs[k]]));
    var one, tree := [cs[k]], [TreeOf(t, cs[k])];
    assert |one[1..]| == 0 && |tree[1..]| == 0;
    assert TreesOf(t, i, one) == tree && ScopesText(tree) == ScopeText(TreeOf(t, cs[k]));
  }

  lemma TextInParts(t: Tables, i: nat)
    requires i < |t.scopes|
    ensures var n := t.scopes[i];
      ScopeText(TreeOf(t, i)) == Line(["$scope", n.kind, n.name, "$end"]) + VarsText(VarsAt(t.vars, n.vars)) + "\n"
        + ScopesText(TreesOf(t, i, n.scopes)) + Line(["$upscope", "$end"])
  {
  }

  // ---- the rewritten file

  /** Everything in the tables can be written and read back. */
  ghost predicate WritableTables(t: Tables) {
    && (forall i :: 0 <= i < |t.scopes| ==> IsWord(t.scopes[i].kind) && IsWord(t.scopes[i].name))
    && forall k :: 0 <= k < |t.vars| ==> Writable(t.vars[k])
  }

  lemma ScopeStaysWritable(t: Tables, p: nat, name: string)
    requires p < |t.scopes|
    ensures WritableTables(t) && IsWord(name) ==> WritableTables(WithScope(t, p, "module", name))
  {
  }

  lemma VarStaysWritable(t: Tables, s: nat, v: nat, name: string)
    requires s < |t.scopes| && v < |t.vars|
    ensures WritableTables(t) && IsWord(name) ==> WritableTables(WithVar(t, s, v, name))
  {
  }

  lemma PlaceStaysWritable(t: Tables, s: nat, k: nat)
    requires s < |t.scopes| && k < |t.scopes[s].vars|
    ensures WritableTables(t) ==> WritableTables(WithoutVar(t, s, k))
  {
  }

  lemma ShapeHasRoot(t: Tables)
    requires Shape(t)
    ensures t.scopes != []
  {
  }

  lemma {:induction false} VarsAreWritable(t: Tables, refs: seq<Option<nat>>)
    requires WritableTables(t)
    ensures forall v :: v in VarsAt(t.vars, refs) ==> Writable(v)
  {
    if refs != [] { VarsAreWritable(t, refs[1..]); }
  }

  lemma {:induction false} TreeIsWritable(t: Tables, i: nat)
    requires WritableTables(t) && i < |t.scopes|
    ensures WritableScope(TreeOf(t, i))
    decreases |t.scopes| - i, |t.scopes[i].scopes| + 1
  {
    VarsAreWritable(t, t.scopes[i].vars);
    TreesAreWritable(t, i, t.scopes[i].scopes);
  }

  lemma {:induction false} TreesAreWritable(t: Tables, i: nat, cs: seq<nat>)
    requires WritableTables(t) && i < |t.scopes|
    ensures forall s :: s in TreesOf(t, i, cs) ==> WritableScope(s)
    decreases |t.scopes| - i, |cs|
  {
    if cs != [] {
      TreesAreWritable(t, i, cs[1..]);
      if i < cs[0] < |t.scopes| { TreeIsWritable(t, cs[0]); }
    }
  }

  /** The parts of a name without blanks are words. */
  lemma PartsUnbroken(name: string)
    requires Unbroken(name)
    ensures forall w :: w in TokensOf(name, ".") ==> IsWord(w)
  {
    TokensAreWords(name, ".");
    forall w | w in TokensOf(name, ".") ensures IsWord(w) {
      PartOfName(name, w);
    }
  }

  lemma {:induction false} PartOfName(name: string, w: string)
    requires w in TokensOf(name, ".")
    ensures forall c :: c in w ==> c in name
    decreases |name|
  {
    if name[0] in "." {
      PartOfName(name[1..], w);
    } else {
      var n := FirstOf(name, ".", 0);
      if w != name[..n] { PartOfName(name[n..], w); }
    }
  }

  /** The signals a list of events declares. */
  ghost function Declared(es: seq<Event>): multiset<Signal> {
    if es == [] then multiset{}
    else
      (match es[0]
       case VarDef(kind, width, identifier, _, slice) => multiset{Signal(identifier, kind, width, slice)}
       case _ => multiset{}) + Declared(es[1..])
  }

  lemma {:induction false} DeclaredCat(a: seq<Event>, b: seq<Event>)
    ensures Declared(a + b) == Declared(a) + Declared(b)
    decreases |a|
  {
    if a == [] {
      assert a + b == b;
    } else {
      assert (a + b)[0] == a[0] && (a + b)[1..] == a[1..] + b;
      DeclaredCat(a[1..], b);
    }
  }

  lemma {:induction false} VarsDeclare(vars: seq<Var>)
    ensures Declared(VarEvents(vars)) == VarSignals(vars)
  {
    if vars != [] {
      VarsDeclare(vars[1..]);
      assert VarEvents(vars)[1..] == VarEvents(vars[1..]);
    }
  }

  lemma {:induction false} ScopeDeclares(s: Scope)
    ensures Declared(ScopeEvents(s)) == SignalsOf(s)
    decreases s, 0
  {
    hide VarEvents, ScopesEvents;
    var enter, leave := [EnterScope(s.kind, s.name)], [ExitScope];
    VarsDeclare(s.vars);
    ScopesDeclare(s.scopes);
    DeclaredCat(enter + VarEvents(s.vars) + ScopesEvents(s.scopes), leave);
    DeclaredCat(enter + VarEvents(s.vars), ScopesEvents(s.scopes));
    DeclaredCat(enter, VarEvents(s.vars));
    assert |enter[1..]| == 0 && |leave[1..]| == 0;
    assert Declared(enter) == multiset{} && Declared(leave) == multiset{};
  }

  lemma {:induction false} ScopesDeclare(scopes: seq<Scope>)
    ensures Declared(ScopesEvents(scopes)) == SignalsIn(scopes)
    decreases scopes
  {
    if scopes != [] {
      ScopeDeclares(scopes[0]);
      ScopesDeclare(scopes[1..]);
      DeclaredCat(ScopeEvents(scopes[0]), ScopesEvents(scopes[1..]));
    }
  }

  /** A file rewritten from one tree to another with the same signals, which is what remapping
      makes of it, reads back with the signals and the changes of the original. */
  lemma RewrittenFileKeepsSignals(before: Scope, after: Scope, changes: seq<Event>)
    requires WritableScope(after) && SignalsOf(after) == SignalsOf(before)
    requires AreChanges(changes, 0) && forall e :: e in changes ==> Fits(e)
    ensures var r := ParseDefs(Reads(FileText(after, changes), 0));
      && r.outcome == Done && Declared(r.events) == SignalsOf(before)
      && |changes| <= |r.events| && r.events[|r.events| - |changes|..] == changes
  {
    hide ParseDefs, Reads, ScopeEvents, FileText, WritableScope, AreChanges, SignalsOf;
    WrittenFileReadsBack(after, changes);
    ScopeDeclares(after);
    ChangesDeclareNothing(changes, 0);
    DeclaredCat(ScopeEvents(after) + [DefinitionsEnd], changes);
    DeclaredCat(ScopeEvents(after), [DefinitionsEnd]);
    var one := [DefinitionsEnd];
    assert |one[1..]| == 0 && Declared(one) == multiset{};
  }

  lemma {:induction false} ChangesDeclareNothing(es: seq<Event>, time: nat)
    requires AreChanges(es, time)
    ensures Declared(es) == multiset{}
    decreases |es|
  {
    if es != [] {
      ChangesDeclareNothing(es[1..], if es[0].TimeChange? then es[0].time else time);
    }
  }
}
