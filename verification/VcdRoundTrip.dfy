/** Writing value change dumps: the serialize overloads of hgdb-rewrite-vcd.cc, and what the parser
    makes of their text. */
module VcdRoundTrip {
  import opened Common
  import opened Text
  import opened Tokens
  import opened VcdText

  datatype Var = Var(kind: string, width: nat, identifier: string, name: string, slice: string)

  datatype Scope = Scope(kind: string, name: string, vars: seq<Var>, scopes: seq<Scope>)

  // ---- serialize

  function Line(words: seq<string>): string {
    Join(words, ' ') + "\n"
  }

  function VarText(v: Var): string {
    Line(["$var", v.kind, Decimal(v.width), v.identifier, v.name, v.slice, "$end"])
  }

  function VarsText(vars: seq<Var>): string {
    if vars == [] then "" else VarText(vars[0]) + VarsText(vars[1..])
  }

  function ScopeText(s: Scope): string
    decreases s, 0
  {
    Line(["$scope", s.kind, s.name, "$end"]) + VarsText(s.vars) + "\n" + ScopesText(s.scopes) + Line(["$upscope", "$end"])
  }

  function ScopesText(scopes: seq<Scope>): string
    decreases scopes
  {
    if scopes == [] then "" else ScopeText(scopes[0]) + ScopesText(scopes[1..])
  }

  /** Value changes and time stamps; nothing is written for other events. */
  function ChangeText(e: Event): string {
    match e
    case TimeChange(t) => "#" + Decimal(t) + "\n"
    case ValueChange(_, identifier, value, isEvent) =>
      if isEvent then value + identifier + "\n" else "b" + value + " " + identifier + "\n"
    case _ => ""
  }

  function ChangesText(es: seq<Event>): string {
    if es == [] then "" else ChangeText(es[0]) + ChangesText(es[1..])
  }

  /** What the rewriter writes for a file with one root scope. */
  function FileText(root: Scope, changes: seq<Event>): string {
    ScopeText(root) + Line(["$enddefinitions", "$end"]) + ChangesText(changes)
  }

  // ---- texts that can be written

  predicate IsWord(w: string) { IsToken(w, BLANKS) }

  predicate Writable(v: Var) {
    IsWord(v.kind) && v.width < U32 && IsWord(v.identifier) && IsWord(v.name)
    && (v.slice == "" || (IsWord(v.slice) && v.slice != "$end"))
  }

  ghost predicate WritableScope(s: Scope)
    decreases s
  {
    && IsWord(s.kind) && IsWord(s.name)
    && (forall v :: v in s.vars ==> Writable(v))
    && forall c :: c in s.scopes ==> WritableScope(c)
  }

  predicate Unbroken(w: string) { forall c :: c in w ==> c !in BLANKS }

  /** A change the parser could have reported at the given time. */
  predicate IsChange(e: Event, time: nat) {
    match e
    case TimeChange(_) => true
    case ValueChange(t, identifier, value, isEvent) =>
      && t == time && Unbroken(value) && Unbroken(identifier)
      && if isEvent then |value| == 1 && IsScalar(value[0]) else identifier != ""
    case _ => false
  }

  predicate AreChanges(es: seq<Event>, time: nat) {
    es == [] ||
    (IsChange(es[0], time) && AreChanges(es[1..], if es[0].TimeChange? then es[0].time else time))
  }

  // ---- tokens of the text

  predicate EndsBlank(s: string) {
    s == "" || s[|s| - 1] in BLANKS
  }

  lemma WordEnds(s: string, pos: nat)
    requires pos < |s| && EndsBlank(s)
    ensures FirstOf(s, BLANKS, pos) < |s|
  {
    assert s[|s| - 1] in BLANKS;
  }

  lemma {:induction false} TokensCat(a: string, b: string)
    requires EndsBlank(a)
    ensures TokensOf(a + b, BLANKS) == TokensOf(a, BLANKS) + TokensOf(b, BLANKS)
    decreases |a|
  {
    hide TokensOf;
    if a == "" {
      assert a + b == b;
      NoTokens();
    } else if a[0] in BLANKS {
      TokensCat(a[1..], b);
      assert (a + b)[1..] == a[1..] + b && (a + b)[0] == a[0];
      BlankAndRest(a);
      BlankAndRest(a + b);
    } else {
      CatSplits(a, b);
      TokenAndRest(a + b);
      TokenAndRest(a);
      TokensCat(a[FirstOf(a, BLANKS, 0)..], b);
    }
  }

  /** The first word of a is the first word of a and b. */
  lemma CatSplits(a: string, b: string)
    requires a != "" && a[0] !in BLANKS && EndsBlank(a)
    ensures var n := FirstOf(a, BLANKS, 0);
      && 0 < n < |a| && FirstOf(a + b, BLANKS, 0) == n && (a + b)[0] == a[0]
      && (a + b)[..n] == a[..n] && (a + b)[n..] == a[n..] + b && EndsBlank(a[n..])
  {
    var n := FirstOf(a, BLANKS, 0);
    WordEnds(a, 0);
    FirstIs(a + b, BLANKS, 0, n);
  }

  lemma NoTokens()
    ensures TokensOf("", BLANKS) == []
  {
  }

  lemma BlankAndRest(a: string)
    requires a != "" && a[0] in BLANKS
    ensures TokensOf(a, BLANKS) == TokensOf(a[1..], BLANKS)
  {
  }

  lemma TokenAndRest(a: string)
    requires a != "" && a[0] !in BLANKS
    ensures var n := FirstOf(a, BLANKS, 0);
      TokensOf(a, BLANKS) == [a[..n]] + TokensOf(a[n..], BLANKS)
  {
  }

  function Words(words: seq<string>): seq<string> {
    if words == [] then [] else (if words[0] == "" then [] else [words[0]]) + Words(words[1..])
  }

  /** A line reads as its words that are not empty. */
  lemma {:induction false} LineTokens(words: seq<string>)
    requires words != [] && forall w :: w in words ==> w == "" || IsWord(w)
    ensures TokensOf(Line(words), BLANKS) == Words(words) && EndsBlank(Line(words)) && Line(words) != ""
  {
    var w := words[0];
    if |words| == 1 {
      assert Line(words) == w + "\n" && words[1..] == [];
      OneWord(w, "\n");
      DelimiterFirst('\n', "", BLANKS);
      assert ['\n'] + "" == "\n";
    } else {
      LineTokens(words[1..]);
      var rest := Line(words[1..]);
      assert Line(words) == w + (" " + rest);
      OneWord(w, " " + rest);
      DelimiterFirst(' ', rest, BLANKS);
    }
  }

  lemma OneWord(w: string, rest: string)
    requires (w == "" || IsWord(w)) && rest != "" && rest[0] in BLANKS
    ensures TokensOf(w + rest, BLANKS) == (if w == "" then [] else [w]) + TokensOf(rest, BLANKS)
  {
    if w == "" { assert w + rest == rest; } else { WordFirst(w, rest, BLANKS); }
  }

  lemma {:induction false} ScanWord(text: string, start: nat, pos: nat, end: nat)
    requires start <= pos <= end < |text| && start < end
    requires text[end] in BLANKS && forall i :: start <= i < end ==> text[i] !in BLANKS
    ensures Scan(text, pos, text[start..pos]) == (text[start..end], end + 1, false)
    decreases end - pos
  {
    if pos < end {
      ScanWord(text, start, pos + 1, end);
      assert text[start..pos] + [text[pos]] == text[start..pos + 1];
    }
  }

  /** The reader gives out the words of a text that ends in a blank, then one spurious token. */
  lemma {:induction false} ReadsWords(text: string, pos: nat)
    requires pos <= |text| && EndsBlank(text)
    ensures Reads(text, pos) == TokensOf(text[pos..], BLANKS) + [['\0']]
    decreases |text| - pos
  {
    hide TokensOf, Reads, Scan;
    if pos == |text| {
      NothingRead(text);
    } else if text[pos] in BLANKS {
      ReadsWords(text, pos + 1);
      BlankRead(text, pos);
    } else {
      var n := FirstOf(text, BLANKS, pos);
      WordEnds(text, pos);
      ReadsWords(text, n + 1);
      WordRead(text, pos, n);
      NextRun(text, BLANKS, pos);
    }
  }

  lemma NothingRead(text: string)
    ensures Reads(text, |text|) == TokensOf(text[|text|..], BLANKS) + [['\0']]
  {
    assert text[|text|..] == "" && "" + ['\0'] == ['\0'];
  }

  lemma BlankRead(text: string, pos: nat)
    requires pos < |text| && text[pos] in BLANKS
    ensures Reads(text, pos) == Reads(text, pos + 1)
    ensures TokensOf(text[pos..], BLANKS) == TokensOf(text[pos + 1..], BLANKS)
  {
    assert text[pos..][1..] == text[pos + 1..];
    assert Scan(text, pos, "") == Scan(text, pos + 1, "");
  }

  lemma WordRead(text: string, pos: nat, end: nat)
    requires pos < end < |text| && text[end] in BLANKS && forall i :: pos <= i < end ==> text[i] !in BLANKS
    ensures Reads(text, pos) == [text[pos..end]] + Reads(text, end + 1)
  {
    ScanWord(text, pos, pos, end);
    assert text[pos..pos] == "";
  }

  // ---- definitions

  function VarTokens(v: Var): seq<string> {
    ["$var", v.kind, Decimal(v.width), v.identifier, v.name] + (if v.slice == "" then [] else [v.slice]) + ["$end"]
  }

  function VarsTokens(vars: seq<Var>): seq<string> {
    if vars == [] then [] else VarTokens(vars[0]) + VarsTokens(vars[1..])
  }

  function ScopeTokens(s: Scope): seq<string>
    decreases s, 0
  {
    ["$scope", s.kind, s.name, "$end"] + VarsTokens(s.vars) + ScopesTokens(s.scopes) + ["$upscope", "$end"]
  }

  function ScopesTokens(scopes: seq<Scope>): seq<string>
    decreases scopes
  {
    if scopes == [] then [] else ScopeTokens(scopes[0]) + ScopesTokens(scopes[1..])
  }

  /** text consists of whole words that read as ts. */
  ghost predicate ReadsAs(text: string, ts: seq<string>) {
    EndsBlank(text) && TokensOf(text, BLANKS) == ts
  }

  lemma ReadsAsCat(a: string, ts: seq<string>, b: string, us: seq<string>)
    requires ReadsAs(a, ts) && ReadsAs(b, us)
    ensures ReadsAs(a + b, ts + us)
  {
    TokensCat(a, b);
    if b == "" { assert a + b == a; }
  }

  lemma LineReads(words: seq<string>)
    requires words != [] && forall w :: w in words ==> w == "" || IsWord(w)
    ensures ReadsAs(Line(words), Words(words))
  {
    LineTokens(words);
  }

  lemma DecimalIsWord(n: nat)
    ensures IsWord(Decimal(n))
  {
    DecimalReads(n);
    forall c | c in Decimal(n) ensures c !in BLANKS {
      var i :| 0 <= i < |Decimal(n)| && Decimal(n)[i] == c;
    }
  }

  lemma VarReads(v: Var)
    requires Writable(v)
    ensures ReadsAs(VarText(v), VarTokens(v))
  {
    DecimalIsWord(v.width);
    var ws := ["$var", v.kind, Decimal(v.width), v.identifier, v.name, v.slice, "$end"];
    LineReads(ws);
    var last := [v.slice, "$end"];
    assert last[1..] == ["$end"] && ["$end"][1..] == [];
    assert Words(last) == (if v.slice == "" then [] else [v.slice]) + ["$end"];
    WordsCat(["$var", v.kind, Decimal(v.width), v.identifier, v.name], last);
    assert ws == ["$var", v.kind, Decimal(v.width), v.identifier, v.name] + last;
    AllWords(["$var", v.kind, Decimal(v.width), v.identifier, v.name]);
  }

  lemma {:induction false} WordsCat(a: seq<string>, b: seq<string>)
    ensures Words(a + b) == Words(a) + Words(b)
  {
    if a == [] {
      assert a + b == b;
    } else {
      var first := if a[0] == "" then [] else [a[0]];
      assert (a + b)[0] == a[0] && (a + b)[1..] == a[1..] + b;
      assert Words(a + b) == first + Words(a[1..] + b) && Words(a) == first + Words(a[1..]);
      hide *;
      WordsCat(a[1..], b);
    }
  }

  lemma {:induction false} AllWords(ws: seq<string>)
    requires forall w :: w in ws ==> w != ""
    ensures Words(ws) == ws
  {
    if ws != [] {
      assert ws[0] in ws && forall w :: w in ws[1..] ==> w in ws;
      AllWords(ws[1..]);
    }
  }

  lemma {:induction false} VarsRead(vars: seq<Var>)
    requires forall v :: v in vars ==> Writable(v)
    ensures ReadsAs(VarsText(vars), VarsTokens(vars))
  {
    if vars != [] {
      VarReads(vars[0]);
      VarsRead(vars[1..]);
      ReadsAsCat(VarText(vars[0]), VarTokens(vars[0]), VarsText(vars[1..]), VarsTokens(vars[1..]));
    }
  }

  lemma FixedLine(ws: seq<string>)
    requires ws != [] && forall w :: w in ws ==> IsWord(w)
    ensures ReadsAs(Line(ws), ws)
  {
    LineReads(ws);
    AllWords(ws);
  }

  lemma {:induction false} ScopeReads(s: Scope)
    requires WritableScope(s)
    ensures ReadsAs(ScopeText(s), ScopeTokens(s))
    decreases s, 0
  {
    hide ReadsAs, Line, VarsText, VarsTokens, ScopesText, ScopesTokens;
    var head, vars, inner, foot := ["$scope", s.kind, s.name, "$end"], VarsTokens(s.vars), ScopesTokens(s.scopes), ["$upscope", "$end"];
    FixedLine(head);
    FixedLine(foot);
    VarsRead(s.vars);
    ScopesRead(s.scopes);
    NewlineReads();
    ReadsAsCat(Line(head), head, VarsText(s.vars), vars);
    ReadsAsCat(Line(head) + VarsText(s.vars), head + vars, "\n", []);
    ReadsAsCat(Line(head) + VarsText(s.vars) + "\n", head + vars + [], ScopesText(s.scopes), inner);
    ReadsAsCat(Line(head) + VarsText(s.vars) + "\n" + ScopesText(s.scopes), head + vars + [] + inner, Line(foot), foot);
    assert head + vars + [] == head + vars;
  }

  lemma NewlineReads()
    ensures ReadsAs("\n", [])
  {
    DelimiterFirst('\n', "", BLANKS);
    assert ['\n'] + "" == "\n";
  }

  lemma {:induction false} ScopesRead(scopes: seq<Scope>)
    requires forall c :: c in scopes ==> WritableScope(c)
    ensures ReadsAs(ScopesText(scopes), ScopesTokens(scopes))
    decreases scopes
  {
    if scopes != [] {
      ScopeReads(scopes[0]);
      ScopesRead(scopes[1..]);
      ReadsAsCat(ScopeText(scopes[0]), ScopeTokens(scopes[0]), ScopesText(scopes[1..]), ScopesTokens(scopes[1..]));
    }
  }

  function VarEvent(v: Var): Event { VarDef(v.kind, v.width, v.identifier, v.name, v.slice) }

  function VarEvents(vars: seq<Var>): seq<Event> {
    if vars == [] then [] else [VarEvent(vars[0])] + VarEvents(vars[1..])
  }

  /** What the callbacks are told about a scope: its variables before its child scopes. */
  function ScopeEvents(s: Scope): seq<Event>
    decreases s, 0
  {
    [EnterScope(s.kind, s.name)] + VarEvents(s.vars) + ScopesEvents(s.scopes) + [ExitScope]
  }

  function ScopesEvents(scopes: seq<Scope>): seq<Event>
    decreases scopes
  {
    if scopes == [] then [] else ScopeEvents(scopes[0]) + ScopesEvents(scopes[1..])
  }

  lemma {:induction false} DigitsAreAll(t: string)
    requires forall i :: 0 <= i < |t| ==> IsDigit(t[i])
    ensures DigitsOf(t) == t
  {
    if t != "" {
      DigitsAreAll(t[1..]);
      assert [t[0]] + t[1..] == t;
    }
  }

  lemma NumberReadsBack(n: nat)
    ensures Leading(Decimal(n)) == Some(n)
    ensures n < U32 ==> Width(Decimal(n)) == Some(n)
    ensures Timestamp(Decimal(n)) == if n < 0x8000_0000 then Some(n) else None
  {
    LeadingDecimal(n);
    hide Leading, Decimal;
    if n < U32 { assert n % U32 == n; }
    if n < 0x8000_0000 { assert n % U64 == n; }
  }

  lemma LeadingDecimal(n: nat)
    ensures Leading(Decimal(n)) == Some(n)
  {
    DecimalReads(n);
    var t := Decimal(n);
    DigitsAreAll(t);
    assert IsDigit(t[0]);
    hide Decimal, DigitsOf, Numeral;
  }

  lemma VarParses(v: Var, rest: seq<string>)
    requires Writable(v)
    ensures ParseDefs(VarTokens(v) + rest) == Prepend(VarEvent(v), ParseDefs(rest))
  {
    NumberReadsBack(v.width);
    var ts := VarTokens(v) + rest;
    assert ts[0] == "$var" && Nth(ts, 1) == v.kind && Nth(ts, 2) == Decimal(v.width);
    assert Nth(ts, 3) == v.identifier && Nth(ts, 4) == v.name;
    if v.slice == "" {
      assert Nth(ts, 5) == "$end" && Drop(ts, 6) == rest;
    } else {
      assert Nth(ts, 5) == v.slice && Nth(ts, 6) == "$end" && Drop(ts, 7) == rest;
    }
    hide Width, MetaText, ParseValues, Decimal;
  }

  lemma {:induction false} VarsParse(vars: seq<Var>, rest: seq<string>)
    requires forall v :: v in vars ==> Writable(v)
    ensures ParseDefs(VarsTokens(vars) + rest) == Later(VarEvents(vars), ParseDefs(rest))
  {
    hide ParseDefs, VarTokens;
    if vars == [] {
      assert [] + rest == rest;
    } else {
      VarsParse(vars[1..], rest);
      VarParses(vars[0], VarsTokens(vars[1..]) + rest);
      assert VarTokens(vars[0]) + (VarsTokens(vars[1..]) + rest) == VarsTokens(vars) + rest;
    }
  }

  lemma EnterParses(s: Scope, rest: seq<string>)
    ensures ParseDefs(["$scope", s.kind, s.name, "$end"] + rest) ==
      Prepend(EnterScope(s.kind, s.name), ParseDefs(rest))
    ensures ParseDefs(["$upscope", "$end"] + rest) == Prepend(ExitScope, ParseDefs(rest))
    ensures ParseDefs(["$enddefinitions", "$end"] + rest) == Prepend(DefinitionsEnd, ParseValues(rest, 0))
  {
    hide ParseValues;
    assert (["$scope", s.kind, s.name, "$end"] + rest)[4..] == rest;
    assert (["$upscope", "$end"] + rest)[2..] == rest;
    assert (["$enddefinitions", "$end"] + rest)[2..] == rest;
  }

  lemma {:induction false} ScopeParses(s: Scope, rest: seq<string>)
    requires WritableScope(s)
    ensures ParseDefs(ScopeTokens(s) + rest) == Later(ScopeEvents(s), ParseDefs(rest))
    decreases s, 0
  {
    hide ParseDefs, VarsTokens, ScopesTokens, VarEvents, ScopesEvents;
    var foot := ["$upscope", "$end"] + rest;
    var inner := ScopesTokens(s.scopes) + foot;
    var body := VarsTokens(s.vars) + inner;
    EnterParses(s, body);
    EnterParses(s, rest);
    VarsParse(s.vars, inner);
    ScopesParse(s.scopes, foot);
    assert ScopeTokens(s) + rest == ["$scope", s.kind, s.name, "$end"] + body;
    assert ScopeEvents(s) + ParseDefs(rest).events ==
      [EnterScope(s.kind, s.name)] + (VarEvents(s.vars) + (ScopesEvents(s.scopes) + ([ExitScope] + ParseDefs(rest).events)));
  }

  lemma {:induction false} ScopesParse(scopes: seq<Scope>, rest: seq<string>)
    requires forall c :: c in scopes ==> WritableScope(c)
    ensures ParseDefs(ScopesTokens(scopes) + rest) == Later(ScopesEvents(scopes), ParseDefs(rest))
    decreases scopes
  {
    hide ParseDefs, ScopeTokens, ScopeEvents;
    if scopes == [] {
      assert [] + rest == rest;
    } else {
      var more := ScopesTokens(scopes[1..]) + rest;
      ScopeParses(scopes[0], more);
      ScopesParse(scopes[1..], rest);
      assert ScopesTokens(scopes) + rest == ScopeTokens(scopes[0]) + more;
    }
  }

  // ---- changes

  function ChangeTokens(e: Event): seq<string> {
    match e
    case TimeChange(t) => ["#" + Decimal(t)]
    case ValueChange(_, identifier, value, isEvent) =>
      if isEvent then [value + identifier] else ["b" + value, identifier]
    case _ => []
  }

  function ChangesTokens(es: seq<Event>): seq<string> {
    if es == [] then [] else ChangeTokens(es[0]) + ChangesTokens(es[1..])
  }

  lemma ChangeReads(e: Event, time: nat)
    requires IsChange(e, time)
    ensures ReadsAs(ChangeText(e), ChangeTokens(e))
  {
    match e
    case TimeChange(t) =>
      DecimalIsWord(t);
      FixedLine(["#" + Decimal(t)]);
    case ValueChange(_, identifier, value, isEvent) =>
      if isEvent {
        assert IsWord(value + identifier);
        FixedLine([value + identifier]);
      } else {
        assert IsWord("b" + value) && IsWord(identifier);
        var ws := ["b" + value, identifier];
        FixedLine(ws);
        assert ws[1..] == [identifier] && Join([identifier], ' ') == identifier;
        assert Join(ws, ' ') == ("b" + value) + [' '] + identifier && [' '] == " ";
        assert Line(ws) == "b" + value + " " + identifier + "\n";
      }
  }

  lemma {:induction false} ChangesRead(es: seq<Event>, time: nat)
    requires AreChanges(es, time)
    ensures ReadsAs(ChangesText(es), ChangesTokens(es))
  {
    hide ReadsAs, ChangeText, ChangeTokens;
    if es == [] {
      NothingReads();
    } else {
      ChangeReads(es[0], time);
      ChangesRead(es[1..], if es[0].TimeChange? then es[0].time else time);
      ReadsAsCat(ChangeText(es[0]), ChangeTokens(es[0]), ChangesText(es[1..]), ChangesTokens(es[1..]));
    }
  }

  lemma NothingReads()
    ensures ReadsAs("", [])
  {
  }

  /** Whether a change can be read back: std::stoi throws on a time of 2^31 or more. */
  predicate Fits(e: Event) { e.TimeChange? ==> e.time < 0x8000_0000 }

  lemma ChangeParses(e: Event, time: nat, rest: seq<string>)
    requires IsChange(e, time)
    ensures ParseValues(ChangeTokens(e) + rest, time) ==
      if Fits(e) then Prepend(e, ParseValues(rest, if e.TimeChange? then e.time else time)) else Run([], Throws)
  {
    var ts := ChangeTokens(e) + rest;
    match e
    case TimeChange(t) =>
      NumberReadsBack(t);
      assert ts[0] == "#" + Decimal(t) && ts[0][1..] == Decimal(t) && ts[1..] == rest;
      hide Timestamp, Decimal;
    case ValueChange(_, identifier, value, isEvent) =>
      if isEvent {
        assert ts[0] == value + identifier && ts[0][1..] == identifier && ts[0][..1] == value && ts[1..] == rest;
      } else {
        assert ts[0] == "b" + value && ts[0][1..] == value && ts[1] == identifier && ts[2..] == rest;
      }
  }

  /** The change section reads back as it was written if and only if all its times fit. */
  lemma {:induction false} ChangesParse(es: seq<Event>, time: nat)
    requires AreChanges(es, time)
    ensures (forall e :: e in es ==> Fits(e)) ==> ParseValues(ChangesTokens(es) + [['\0']], time) == Run(es, Done)
    ensures !(forall e :: e in es ==> Fits(e)) ==> ParseValues(ChangesTokens(es) + [['\0']], time).outcome == Throws
  {
    hide ParseValues, ChangeTokens;
    var last := [['\0']];
    if es == [] {
      SpuriousToken(time);
      assert [] + last == last;
    } else {
      var next := if es[0].TimeChange? then es[0].time else time;
      ChangesParse(es[1..], next);
      ChangeParses(es[0], time, ChangesTokens(es[1..]) + last);
      assert ChangesTokens(es) + last == ChangeTokens(es[0]) + (ChangesTokens(es[1..]) + last);
      assert es == [es[0]] + es[1..];
    }
  }

  /** What the end of the file leaves behind is passed over. */
  lemma SpuriousToken(time: nat)
    ensures ParseValues([['\0']], time) == Run([], Done)
  {
    assert [['\0']][1..] == [];
  }

  // ---- the whole file

  /** A written file consists of the words of the tree, the end of the definitions, and the changes. */
  lemma FileReadsAs(root: Scope, changes: seq<Event>)
    requires WritableScope(root) && AreChanges(changes, 0)
    ensures ReadsAs(FileText(root, changes),
      ScopeTokens(root) + ["$enddefinitions", "$end"] + ChangesTokens(changes))
  {
    hide ReadsAs, ScopeText, ScopeTokens, Line, ChangesText, ChangesTokens, WritableScope, AreChanges;
    var mid := ["$enddefinitions", "$end"];
    ScopeReads(root);
    FixedLine(mid);
    ChangesRead(changes, 0);
    ReadsAsCat(ScopeText(root), ScopeTokens(root), Line(mid), mid);
    ReadsAsCat(ScopeText(root) + Line(mid), ScopeTokens(root) + mid, ChangesText(changes), ChangesTokens(changes));
  }

  /** What the parser reports for a written file: the tree, then the changes. The parse ends well if
      and only if every time is below 2^31. */
  lemma WrittenFileReadsBack(root: Scope, changes: seq<Event>)
    requires WritableScope(root) && AreChanges(changes, 0)
    ensures var r := ParseDefs(Reads(FileText(root, changes), 0));
      && (r.outcome == Done <==> forall e :: e in changes ==> Fits(e))
      && (r.outcome == Done ==> r.events == ScopeEvents(root) + [DefinitionsEnd] + changes)
  {
    hide ReadsAs, ScopeText, ScopeTokens, ScopeEvents, Line, ChangesText, ChangesTokens, Reads, ParseDefs, ParseValues, WritableScope, AreChanges, Fits;
    var text, last := FileText(root, changes), [['\0']];
    var mid := ["$enddefinitions", "$end"];
    FileReadsAs(root, changes);
    FileReads(text, ScopeTokens(root) + mid + ChangesTokens(changes));
    var tail := ChangesTokens(changes) + last;
    assert ScopeTokens(root) + mid + ChangesTokens(changes) + last == ScopeTokens(root) + (mid + tail);
    ScopeParses(root, mid + tail);
    EnterParses(root, tail);
    ChangesParse(changes, 0);
  }

  lemma FileReads(text: string, ts: seq<string>)
    requires ReadsAs(text, ts)
    ensures Reads(text, 0) == ts + [['\0']]
  {
    ReadsWords(text, 0);
    assert text[0..] == text;
  }
}
