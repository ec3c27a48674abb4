/** A whole run of the rewriter, from the text of a dump to the text it writes: the constructor's
    callbacks and convert() of hgdb-rewrite-vcd.cc on top of the parser. */
module VcdConversion {
  import opened Common
  import opened Tokens
  import opened VcdText
  import opened VcdRoundTrip
  import opened VcdTree
  import opened VcdSignals
  import opened VcdRewriter

  // ---- what the parser takes for tokens

  ghost predicate AreWords(ts: seq<string>) { forall t :: t in ts ==> IsWord(t) }

  lemma {:induction false} ScansWord(text: string, pos: nat, token: string)
    requires pos <= |text| && forall c :: c in token ==> c !in BLANKS
    ensures IsWord(Scan(text, pos, token).0)
    decreases |text| - pos
  {
    if pos < |text| {
      if text[pos] in BLANKS {
        if token == "" { ScansWord(text, pos + 1, ""); }
      } else {
        ScansWord(text, pos + 1, token + [text[pos]]);
      }
    }
  }

  lemma {:induction false} ReadsAreWords(text: string, pos: nat)
    requires pos <= |text|
    ensures AreWords(Reads(text, pos))
    decreases |text| - pos
  {
    ScansWord(text, pos, "");
    var (token, next, eof) := Scan(text, pos, "");
    if !eof { ReadsAreWords(text, next); }
  }

  // ---- headers

  function MetaName(m: Meta): string {
    match m
    case Date => "$date"
    case Version => "$version"
    case Timescale => "$timescale"
    case Comment => "$comment"
  }

  /** Words with a blank in front of each, as the parser puts a header together. */
  function Spell(words: seq<string>): string {
    if words == [] then "" else " " + words[0] + Spell(words[1..])
  }

  /** A header text the parser could have reported. */
  predicate IsHeader(text: string) {
    Spell(TokensOf(text, BLANKS)) == text && "$end" !in TokensOf(text, BLANKS)
  }

  /** serialize of a header. */
  function HeaderText(m: Meta, text: string): string {
    Line([MetaName(m)]) + ("  " + text + "\n") + Line(["$end"])
  }

  lemma {:induction false} SpelledTokens(words: seq<string>, end: string)
    requires AreWords(words) && (end == "" || end[0] in BLANKS)
    ensures TokensOf(Spell(words) + end, BLANKS) == words + TokensOf(end, BLANKS)
  {
    hide TokensOf, Spell;
    var after := TokensOf(end, BLANKS);
    SpellOne(words, end);
    if words == [] {
      assert words + after == after;
    } else {
      var w, rest := words[0], Spell(words[1..]) + end;
      assert w in words && forall x :: x in words[1..] ==> x in words;
      SpelledTokens(words[1..], end);
      SpellStarts(words[1..], end);
      DelimiterFirst(' ', w + rest, BLANKS);
      WordFirst(w, rest, BLANKS);
      Regroup(w, words[1..], after);
      assert [w] + words[1..] == words;
    }
  }

  lemma Regroup(w: string, words: seq<string>, after: seq<string>)
    ensures [w] + (words + after) == [w] + words + after
  {
  }

  lemma SpellOne(words: seq<string>, end: string)
    ensures words == [] ==> Spell(words) + end == end
    ensures words != [] ==> Spell(words) + end == [' '] + (words[0] + (Spell(words[1..]) + end))
  {
    if words != [] {
      var w, rest := words[0], Spell(words[1..]);
      assert " " + w + rest + end == [' '] + (w + (rest + end));
    }
  }

  lemma SpellStarts(words: seq<string>, end: string)
    requires end == "" || end[0] in BLANKS
    ensures Spell(words) + end == "" || (Spell(words) + end)[0] in BLANKS
  {
  }

  lemma SpelledIsHeader(words: seq<string>)
    requires AreWords(words) && "$end" !in words
    ensures IsHeader(Spell(words))
  {
    SpelledTokens(words, "");
    assert Spell(words) + "" == Spell(words) && TokensOf("", BLANKS) == [] && words + [] == words;
  }

  lemma HeaderReads(m: Meta, text: string)
    requires IsHeader(text)
    ensures ReadsAs(HeaderText(m, text), [MetaName(m)] + TokensOf(text, BLANKS) + ["$end"])
  {
    hide TokensOf, ReadsAs, Line, Spell;
    var words := TokensOf(text, BLANKS);
    FixedLine([MetaName(m)]);
    FixedLine(["$end"]);
    BodyReads(text);
    ReadsAsCat(Line([MetaName(m)]), [MetaName(m)], "  " + text + "\n", words);
    ReadsAsCat(Line([MetaName(m)]) + ("  " + text + "\n"), [MetaName(m)] + words, Line(["$end"]), ["$end"]);
  }

  lemma BodyReads(text: string)
    requires IsHeader(text)
    ensures ReadsAs("  " + text + "\n", TokensOf(text, BLANKS))
  {
    hide TokensOf, Spell;
    var words := TokensOf(text, BLANKS);
    TokensAreWords(text, BLANKS);
    SpelledTokens(words, "\n");
    NewlineReads();
    assert "  " + text + "\n" == [' '] + ([' '] + (text + "\n"));
    DelimiterFirst(' ', text + "\n", BLANKS);
    DelimiterFirst(' ', [' '] + (text + "\n"), BLANKS);
    assert words + [] == words;
  }

  /** The words up to $end are put together, and what follows is left. */
  lemma {:induction false} MetaTextOf(words: seq<string>, rest: seq<string>)
    requires "$end" !in words
    ensures MetaText(words + (["$end"] + rest)) == Some((Spell(words), rest))
  {
    var ts := words + (["$end"] + rest);
    if words == [] {
      assert ts == ["$end"] + rest && ts[1..] == rest;
    } else {
      assert words[0] in words && "$end" !in words[1..];
      MetaTextOf(words[1..], rest);
      assert ts[1..] == words[1..] + (["$end"] + rest);
    }
  }

  /** And whatever the parser reports for a header is such a text. */
  lemma {:induction false} MetaTextSpells(ts: seq<string>) returns (words: seq<string>)
    requires MetaText(ts).Some? && AreWords(ts)
    ensures MetaText(ts).value.0 == Spell(words) && AreWords(words) && "$end" !in words
    ensures AreWords(MetaText(ts).value.1)
  {
    assert ts[0] in ts && forall t :: t in ts[1..] ==> t in ts;
    if ts[0] == "$end" {
      words := [];
    } else {
      var more := MetaTextSpells(ts[1..]);
      words := [ts[0]] + more;
      assert words[1..] == more;
    }
  }

  // ---- what the parser reports

  /** A definition the parser could have reported for whole words. */
  predicate IsDefinition(e: Event) {
    match e
    case MetaInfo(_, text) => IsHeader(text)
    case EnterScope(kind, name) => IsWord(kind) && IsWord(name)
    case ExitScope => true
    case VarDef(kind, width, identifier, name, slice) => Writable(Var(kind, width, identifier, name, slice))
    case _ => false
  }

  /** The events before the end of the definitions. */
  function DefsOf(es: seq<Event>): seq<Event> {
    if es == [] || es[0] == DefinitionsEnd then [] else [es[0]] + DefsOf(es[1..])
  }

  /** The events behind it. */
  function ChangesOf(es: seq<Event>): seq<Event> {
    if es == [] then [] else if es[0] == DefinitionsEnd then es[1..] else ChangesOf(es[1..])
  }

  lemma {:induction false} SplitOf(defs: seq<Event>, changes: seq<Event>)
    requires DefinitionsEnd !in defs
    ensures DefsOf(defs + [DefinitionsEnd] + changes) == defs
    ensures ChangesOf(defs + [DefinitionsEnd] + changes) == changes
  {
    var es := defs + [DefinitionsEnd] + changes;
    if defs == [] {
      assert es == [DefinitionsEnd] + changes && es[1..] == changes;
    } else {
      assert defs[0] in defs && es[1..] == defs[1..] + [DefinitionsEnd] + changes;
      SplitOf(defs[1..], changes);
    }
  }

  lemma ConsSplits(e: Event, es: seq<Event>)
    requires e != DefinitionsEnd
    ensures DefsOf([e] + es) == [e] + DefsOf(es) && ChangesOf([e] + es) == ChangesOf(es)
    ensures DefinitionsEnd in [e] + es <==> DefinitionsEnd in es
  {
    assert ([e] + es)[1..] == es;
  }

  ghost predicate AreDefinitions(es: seq<Event>) { forall e :: e in es ==> IsDefinition(e) }

  /** The parser reports definitions, and then what reading the changes from some tokens on does. */
  lemma {:induction false} ParseReports(ts: seq<string>) returns (rest: seq<string>)
    requires AreWords(ts)
    ensures AreDefinitions(DefsOf(ParseDefs(ts).events)) && AreWords(rest)
    ensures DefinitionsEnd in ParseDefs(ts).events ==>
      ChangesOf(ParseDefs(ts).events) == ParseValues(rest, 0).events && ParseDefs(ts).outcome == ParseValues(rest, 0).outcome
    decreases |ts|
  {
    rest := [];
    var r := ParseDefs(ts);
    if r.events != [] {
      var e, more := OneReport(ts);
      if e == DefinitionsEnd {
        rest := more;
        assert r.events[1..] == ParseValues(rest, 0).events;
      } else {
        rest := ParseReports(more);
        ConsSplits(e, ParseDefs(more).events);
      }
    }
  }

  /** The first thing reported, and the tokens left after it. */
  lemma OneReport(ts: seq<string>) returns (e: Event, rest: seq<string>)
    requires AreWords(ts) && ParseDefs(ts).events != []
    ensures AreWords(rest) && |rest| < |ts|
    ensures e == DefinitionsEnd || IsDefinition(e)
    ensures ParseDefs(ts) == Prepend(e, if e == DefinitionsEnd then ParseValues(rest, 0) else ParseDefs(rest))
  {
    hide IsWord;
    assert ts != [] && forall t :: t in ts[1..] ==> t in ts;
    if MetaOf(ts[0]).Some? {
      var words := MetaTextSpells(ts[1..]);
      MetaTextShrinks(ts[1..]);
      SpelledIsHeader(words);
      e, rest := MetaInfo(MetaOf(ts[0]).value, Spell(words)), MetaText(ts[1..]).value.1;
    } else if ts[0] == "$scope" {
      e, rest := EnterScope(Nth(ts, 1), Nth(ts, 2)), Drop(ts, 4);
    } else if ts[0] == "$upscope" {
      e, rest := ExitScope, Drop(ts, 2);
    } else if ts[0] == "$var" {
      e, rest := OneVar(ts);
    } else {
      e, rest := DefinitionsEnd, Drop(ts, 2);
    }
  }

  lemma OneVar(ts: seq<string>) returns (e: Event, rest: seq<string>)
    requires AreWords(ts) && ts != [] && ts[0] == "$var" && ParseDefs(ts).events != []
    ensures AreWords(rest) && |rest| < |ts| && e.VarDef? && IsDefinition(e)
    ensures ParseDefs(ts) == Prepend(e, ParseDefs(rest))
  {
    hide IsWord;
    var width := Width(Nth(ts, 2)).value;
    if Nth(ts, 5) == "$end" {
      e, rest := VarDef(Nth(ts, 1), width, Nth(ts, 3), Nth(ts, 4), ""), Drop(ts, 6);
    } else {
      e, rest := VarDef(Nth(ts, 1), width, Nth(ts, 3), Nth(ts, 4), Nth(ts, 5)), Drop(ts, 7);
    }
  }

  /** Neither a dump section nor a vector value that the end of the file cuts off. */
  predicate IsOrdinary(e: Event) {
    !e.DumpAction? && (e.ValueChange? && !e.isEvent ==> e.identifier != "")
  }

  ghost predicate AreOrdinary(es: seq<Event>) { forall e :: e in es ==> IsOrdinary(e) }

  /** Reported changes can be written down again exactly when they are ordinary. */
  lemma {:induction false} ReportedChanges(ts: seq<string>, time: nat)
    requires AreWords(ts)
    ensures AreChanges(ParseValues(ts, time).events, time) <==> AreOrdinary(ParseValues(ts, time).events)
    decreases |ts|
  {
    var es := ParseValues(ts, time).events;
    if ts != [] {
      assert ts[0] in ts && forall t :: t in ts[1..] ==> t in ts;
      assert forall t :: t in Drop(ts, 2) ==> t in ts;
      WordsUnbroken(ts[0]);
      if Nth(ts, 1) != "" { WordsUnbroken(Nth(ts, 1)); }
      if es != [] { OrdinaryCons(es[0], es[1..]); }
      if ts[0][0] == '#' {
        if Timestamp(ts[0][1..]).Some? { ReportedChanges(ts[1..], Timestamp(ts[0][1..]).value); }
      } else if IsScalar(ts[0][0]) {
        ReportedChanges(ts[1..], time);
      } else if ts[0][0] == 'b' {
        ReportedChanges(Drop(ts, 2), time);
      } else if !IsDump(ts[0]) {
        ReportedChanges(ts[1..], time);
      }
    }
  }

  lemma OrdinaryCons(e: Event, es: seq<Event>)
    ensures AreOrdinary([e] + es) <==> IsOrdinary(e) && AreOrdinary(es)
  {
    assert e in [e] + es && forall x :: x in es ==> x in [e] + es;
  }

  lemma WordsUnbroken(w: string)
    requires IsWord(w)
    ensures Unbroken(w) && w != "" && Unbroken(w[1..]) && Unbroken(w[..1])
  {
  }

  // ---- what the rewriter makes of the definitions

  lemma HeardKeepsWritable(r: Reading, e: Event)
    requires WritableTables(r.t) && IsDefinition(e) && Heard(r, e).Some?
    ensures WritableTables(Heard(r, e).value.t)
  {
    hide IsWord;
  }

  lemma {:induction false} HeardAllWritable(r: Reading, es: seq<Event>)
    requires WritableTables(r.t) && AreDefinitions(es) && HeardAll(r, es).Some?
    ensures WritableTables(HeardAll(r, es).value.t)
    decreases |es|
  {
    if es != [] {
      assert es[0] in es && forall e :: e in es[1..] ==> e in es;
      HeardKeepsWritable(r, es[0]);
      HeardAllWritable(Heard(r, es[0]).value, es[1..]);
    }
  }

  /** The signals in the tables so far. */
  function Sum(t: Tables): multiset<Signal> {
    if t.scopes == [] then multiset{} else Total(t, 0)
  }

  /** One more variable that nobody lists yet. */
  lemma UnlistedAddsNothing(t: Tables, v: Var)
    requires Shape(t)
    ensures var u := t.(vars := t.vars + [v]); Shape(u) && Total(u, 0) == Total(t, 0)
  {
    var u := t.(vars := t.vars + [v]);
    forall i | 0 <= i < |t.scopes| ensures i > 0 ==> InPlace(u, i) ensures Lists(u, i) {
      assert i > 0 ==> InPlace(t, i);
      assert Lists(t, i);
    }
    ShapeIsClosed(t);
    TreeStays(t, u, 0);
  }

  lemma ShapeIsClosed(t: Tables)
    requires Shape(t)
    ensures Closed(t, 0)
  {
    forall j | 0 <= j < |t.scopes|
      ensures forall c :: c in t.scopes[j].scopes ==> j < c < |t.scopes|
      ensures forall k :: 0 <= k < |t.scopes[j].vars| && t.scopes[j].vars[k].Some? ==> t.scopes[j].vars[k].value < |t.vars|
    {
      assert Lists(t, j);
    }
  }

  lemma ScopeHeardAddsNothing(r: Reading, kind: string, name: string)
    requires Shaped(r) && Heard(r, EnterScope(kind, name)).Some?
    ensures Sum(Heard(r, EnterScope(kind, name)).value.t) == Sum(r.t)
  {
    hide Total;
    var u := Heard(r, EnterScope(kind, name)).value.t;
    if r.t.scopes == [] {
      EmptyScope(u, 0);
    } else {
      ScopeAddsNothing(r.t, r.stack[|r.stack| - 1], kind, name, 0);
    }
  }

  lemma VarHeardIsAdded(r: Reading, v: Var)
    requires Shaped(r) && Heard(r, VarEvent(v)).Some?
    ensures Sum(Heard(r, VarEvent(v)).value.t) == Sum(r.t) + multiset{SignalOf(v)}
  {
    hide Total, Shape;
    var t, n, top := r.t, |r.t.vars|, r.stack[|r.stack| - 1];
    UnlistedAddsNothing(t, v);
    var wider := t.(vars := t.vars + [v]);
    VarIsAdded(wider, top, n, v.name);
    SameName(wider.vars, n, v);
    assert Heard(r, VarEvent(v)).value.t == WithVar(wider, top, n, v.name);
  }

  lemma SameName(vars: seq<Var>, n: nat, v: Var)
    requires n < |vars| && vars[n] == v
    ensures vars[n := vars[n].(name := v.name)] == vars
  {
  }

  lemma HeardAddsDeclared(r: Reading, e: Event)
    requires Shaped(r) && Heard(r, e).Some?
    ensures Sum(Heard(r, e).value.t) == Sum(r.t) + Declared([e])
  {
    hide Sum, Shaped;
    var one := [e];
    assert one[1..] == [] && Declared([]) == multiset{};
    match e
    case EnterScope(kind, name) => ScopeHeardAddsNothing(r, kind, name);
    case VarDef(kind, width, identifier, name, slice) =>
      VarHeardIsAdded(r, Var(kind, width, identifier, name, slice));
    case _ =>
  }

  /** The tables list exactly the signals the events declared. */
  lemma {:induction false} HeardAllDeclared(r: Reading, es: seq<Event>)
    requires Shaped(r) && HeardAll(r, es).Some?
    ensures Sum(HeardAll(r, es).value.t) == Sum(r.t) + Declared(es)
    decreases |es|
  {
    hide Sum, Shaped, Heard;
    if es == [] {
      assert Declared(es) == multiset{};
    } else {
      HeardKeepsShape(r, es[0]);
      HeardAddsDeclared(r, es[0]);
      HeardAllDeclared(Heard(r, es[0]).value, es[1..]);
      DeclaredCat([es[0]], es[1..]);
      assert [es[0]] + es[1..] == es;
    }
  }

  // ---- headers in a text

  function HeadersOf(es: seq<Event>): seq<Event> {
    if es == [] then [] else (if es[0].MetaInfo? then [es[0]] else []) + HeadersOf(es[1..])
  }

  function HeaderTextOf(e: Event): string {
    if e.MetaInfo? then HeaderText(e.meta, e.text) else ""
  }

  function HeadersText(es: seq<Event>): string {
    if es == [] then "" else HeaderTextOf(es[0]) + HeadersText(es[1..])
  }

  function HeaderTokens(e: Event): seq<string> {
    if e.MetaInfo? then [MetaName(e.meta)] + TokensOf(e.text, BLANKS) + ["$end"] else []
  }

  function HeadersTokens(es: seq<Event>): seq<string> {
    if es == [] then [] else HeaderTokens(es[0]) + HeadersTokens(es[1..])
  }

  lemma {:induction false} HeadersRead(es: seq<Event>)
    requires AreDefinitions(es)
    ensures ReadsAs(HeadersText(es), HeadersTokens(es))
  {
    hide ReadsAs, HeaderText, TokensOf, IsHeader;
    if es == [] {
      NothingReads();
    } else {
      assert es[0] in es && forall e :: e in es[1..] ==> e in es;
      HeadersRead(es[1..]);
      if es[0].MetaInfo? {
        HeaderReads(es[0].meta, es[0].text);
      } else {
        NothingReads();
      }
      ReadsAsCat(HeaderTextOf(es[0]), HeaderTokens(es[0]), HeadersText(es[1..]), HeadersTokens(es[1..]));
    }
  }

  lemma HeaderParses(m: Meta, text: string, rest: seq<string>)
    requires IsHeader(text)
    ensures ParseDefs(HeaderTokens(MetaInfo(m, text)) + rest) == Prepend(MetaInfo(m, text), ParseDefs(rest))
  {
    hide TokensOf;
    var words := TokensOf(text, BLANKS);
    MetaTextOf(words, rest);
    var ts := HeaderTokens(MetaInfo(m, text)) + rest;
    assert ts[0] == MetaName(m) && ts[1..] == words + (["$end"] + rest);
    assert MetaOf(MetaName(m)) == Some(m);
    hide MetaOf, MetaName, Spell;
  }

  lemma {:induction false} HeadersParse(es: seq<Event>, rest: seq<string>)
    requires AreDefinitions(es)
    ensures var r := ParseDefs(rest); ParseDefs(HeadersTokens(es) + rest) == Run(HeadersOf(es) + r.events, r.outcome)
  {
    hide ParseDefs, HeaderTokens;
    var r := ParseDefs(rest);
    if es == [] {
      assert [] + rest == rest && [] + r.events == r.events;
    } else {
      assert es[0] in es && forall e :: e in es[1..] ==> e in es;
      HeadersParse(es[1..], rest);
      var more := HeadersTokens(es[1..]) + rest;
      if es[0].MetaInfo? {
        HeaderParses(es[0].meta, es[0].text, more);
        assert HeaderTokens(es[0]) + HeadersTokens(es[1..]) + rest == HeaderTokens(es[0]) + more;
        assert [es[0]] + (HeadersOf(es[1..]) + r.events) == [es[0]] + HeadersOf(es[1..]) + r.events;
      } else {
        NoHeader(es[0]);
        assert [] + HeadersTokens(es[1..]) == HeadersTokens(es[1..]) && [] + HeadersOf(es[1..]) == HeadersOf(es[1..]);
      }
    }
  }

  lemma NoHeader(e: Event)
    requires !e.MetaInfo?
    ensures HeaderTokens(e) == []
  {
  }

  /** A text that ends in a blank in front of another one: its words come first. */
  lemma ReadsAfter(a: string, ts: seq<string>, b: string)
    requires ReadsAs(a, ts) && EndsBlank(b)
    ensures Reads(a + b, 0) == ts + Reads(b, 0)
  {
    hide TokensOf, Reads;
    ReadsAsCat(a, ts, b, TokensOf(b, BLANKS));
    FileReads(b, TokensOf(b, BLANKS));
    FileReads(a + b, ts + TokensOf(b, BLANKS));
  }

  // ---- what is written reads back

  lemma {:induction false} NoHeaders(es: seq<Event>)
    requires forall e :: e in es ==> !e.MetaInfo?
    ensures HeadersOf(es) == []
  {
    if es != [] {
      assert es[0] in es && forall e :: e in es[1..] ==> e in es;
      NoHeaders(es[1..]);
    }
  }

  lemma {:induction false} HeadersCat(a: seq<Event>, b: seq<Event>)
    ensures HeadersOf(a + b) == HeadersOf(a) + HeadersOf(b)
    decreases |a|
  {
    if a == [] {
      assert a + b == b && [] + HeadersOf(b) == HeadersOf(b);
    } else {
      assert (a + b)[0] == a[0] && (a + b)[1..] == a[1..] + b;
      HeadersCat(a[1..], b);
      var one: seq<Event> := if a[0].MetaInfo? then [a[0]] else [];
      assert one + (HeadersOf(a[1..]) + HeadersOf(b)) == (one + HeadersOf(a[1..])) + HeadersOf(b);
    }
  }

  lemma {:induction false} HeadersOnly(es: seq<Event>)
    ensures HeadersOf(HeadersOf(es)) == HeadersOf(es) && Declared(HeadersOf(es)) == multiset{}
    ensures DefinitionsEnd !in HeadersOf(es)
  {
    if es != [] {
      HeadersOnly(es[1..]);
      if es[0].MetaInfo? {
        assert HeadersOf(es)[1..] == HeadersOf(es[1..]);
      } else {
        assert [] + HeadersOf(es[1..]) == HeadersOf(es[1..]);
      }
    }
  }

  /** Events of a scope are no headers and do not end the definitions. */
  predicate InScope(e: Event) { e.EnterScope? || e.ExitScope? || e.VarDef? }

  lemma {:induction false} VarsInScope(vars: seq<Var>)
    ensures forall e :: e in VarEvents(vars) ==> InScope(e)
  {
    if vars != [] { VarsInScope(vars[1..]); }
  }

  lemma {:induction false} ScopeInScope(s: Scope)
    ensures forall e :: e in ScopeEvents(s) ==> InScope(e)
    decreases s, 0
  {
    hide VarEvents, ScopesEvents;
    VarsInScope(s.vars);
    ScopesInScope(s.scopes);
  }

  lemma {:induction false} ScopesInScope(scopes: seq<Scope>)
    ensures forall e :: e in ScopesEvents(scopes) ==> InScope(e)
    decreases scopes
  {
    if scopes != [] {
      ScopeInScope(scopes[0]);
      ScopesInScope(scopes[1..]);
    }
  }

  /** Two parses of dumps with the same headers, the same signals and the same changes. */
  ghost predicate SameDump(a: Run, b: Run) {
    && b.outcome == a.outcome
    && HeadersOf(DefsOf(b.events)) == HeadersOf(DefsOf(a.events))
    && Declared(DefsOf(b.events)) == Declared(DefsOf(a.events))
    && ChangesOf(b.events) == ChangesOf(a.events)
  }

  /** What the rewriter writes for some definitions, the tree it keeps for them, and changes. */
  function OutputText(defs: seq<Event>, after: Scope, changes: seq<Event>): string {
    HeadersText(defs) + FileText(after, changes)
  }

  lemma OutputParses(defs: seq<Event>, after: Scope, changes: seq<Event>)
    requires AreDefinitions(defs) && WritableScope(after)
    requires AreChanges(changes, 0) && forall e :: e in changes ==> Fits(e)
    ensures ParseDefs(Reads(OutputText(defs, after, changes), 0))
      == Run(HeadersOf(defs) + ScopeEvents(after) + [DefinitionsEnd] + changes, Done)
  {
    hide ReadsAs, FileText, ParseDefs, Reads, HeadersText, HeadersTokens, ScopeEvents, AreChanges, WritableScope, ScopeTokens, ChangesTokens;
    var file := FileText(after, changes);
    HeadersRead(defs);
    FileReadsAs(after, changes);
    ReadsEndBlank(file, ScopeTokens(after) + ["$enddefinitions", "$end"] + ChangesTokens(changes));
    ReadsAfter(HeadersText(defs), HeadersTokens(defs), file);
    HeadersParse(defs, Reads(file, 0));
    WrittenFileReadsBack(after, changes);
    assert HeadersOf(defs) + (ScopeEvents(after) + [DefinitionsEnd] + changes)
        == HeadersOf(defs) + ScopeEvents(after) + [DefinitionsEnd] + changes;
  }

  lemma ReadsEndBlank(text: string, ts: seq<string>)
    requires ReadsAs(text, ts)
    ensures EndsBlank(text)
  {
  }

  /** Written with a tree that has the signals of the definitions, a dump stays the same dump. */
  lemma OutputIsSameDump(a: Run, after: Scope)
    requires a.outcome == Done && DefinitionsEnd in a.events && AreDefinitions(DefsOf(a.events))
    requires WritableScope(after) && SignalsOf(after) == Declared(DefsOf(a.events))
    requires AreChanges(ChangesOf(a.events), 0) && forall e :: e in ChangesOf(a.events) ==> Fits(e)
    ensures SameDump(a, ParseDefs(Reads(OutputText(DefsOf(a.events), after, ChangesOf(a.events)), 0)))
  {
    hide ParseDefs, Reads, OutputText, ScopeEvents, AreChanges, WritableScope, SignalsOf, HeadersOf, Declared, DefsOf, ChangesOf;
    var defs, changes := DefsOf(a.events), ChangesOf(a.events);
    var heads, tree := HeadersOf(defs), ScopeEvents(after);
    OutputParses(defs, after, changes);
    HeadersOnly(defs);
    ScopeInScope(after);
    assert DefinitionsEnd !in heads + tree;
    SplitOf(heads + tree, changes);
    HeadersCat(heads, tree);
    NoHeaders(tree);
    assert heads + [] == heads;
    ScopeDeclares(after);
    DeclaredCat(heads, tree);
  }

  // ---- the run

  /** The callback for one definition. False: it needs a scope that is not there. */
  method HearDefinition(w: VCDReWriter, e: Event) returns (ok: bool)
    requires Shaped(w.State())
    modifies w
    ensures ok <==> Heard(old(w.State()), e).Some?
    ensures ok ==> Some(w.State()) == Heard(old(w.State()), e) && w.stream == old(w.stream) + HeaderTextOf(e)
  {
    var open := w.scopesStack != [] && w.scopesStack[|w.scopesStack| - 1] < |w.scopes|;
    assert w.stream + "" == w.stream;
    match e {
      case MetaInfo(m, text) =>
        w.stream := w.stream + HeaderText(m, text);
        ok := true;
      case EnterScope(kind, name) =>
        ok := w.scopes == [] || open;
        if ok { w.OnScopeDef(kind, name); }
      case ExitScope =>
        ok := w.scopesStack != [];
        if ok { w.OnExitScope(); }
      case VarDef(kind, width, identifier, name, slice) =>
        ok := open;
        if ok { w.OnVarDef(Var(kind, width, identifier, name, slice)); }
      case _ =>
        ok := true;
    }
  }

  method HearDefinitions(w: VCDReWriter, defs: seq<Event>) returns (ok: bool)
    requires w.State() == NOTHING && w.stream == ""
    modifies w
    ensures ok <==> HeardAll(NOTHING, defs).Some?
    ensures ok ==> Some(w.State()) == HeardAll(NOTHING, defs) && w.stream == HeadersText(defs) && Shaped(w.State())
  {
    hide Heard, Shaped, HeaderTextOf;
    NothingIsShaped();
    for n := 0 to |defs|
      invariant Shaped(w.State())
      invariant HeardAll(NOTHING, defs) == HeardAll(w.State(), defs[n..])
      invariant w.stream + HeadersText(defs[n..]) == HeadersText(defs)
    {
      ghost var r, was := w.State(), w.stream;
      assert defs[n..][0] == defs[n] && defs[n..][1..] == defs[n + 1..];
      ok := HearDefinition(w, defs[n]);
      if !ok {
        return;
      }
      HeardKeepsShape(r, defs[n]);
      assert was + (HeaderTextOf(defs[n]) + HeadersText(defs[n + 1..])) == w.stream + HeadersText(defs[n + 1..]);
    }
    assert w.stream + "" == w.stream;
    ok := true;
  }

  lemma NothingIsShaped()
    ensures Shaped(NOTHING)
  {
  }

  /** on_definition_finished: remap, write the tree, end the definitions. Without a design root
      nothing is remapped. */
  method FinishDefinitions(w: VCDReWriter, designRoot: Option<nat>, rows: seq<Row>) returns (ghost after: Scope)
    requires Shape(w.T()) && (designRoot.Some? ==> designRoot.value < |w.scopes|)
    requires forall r :: r in rows ==> TokensOf(r.rtlName, ".") != [] && TokensOf(r.varName, ".") != []
    modifies w
    ensures w.stream == old(w.stream) + ScopeText(after) + Line(["$enddefinitions", "$end"])
    ensures SignalsOf(after) == Total(old(w.T()), 0)
    ensures WritableTables(old(w.T())) && (forall r :: r in rows ==> Unbroken(r.varName)) ==> WritableScope(after)
  {
    hide Shape, WritableTables, WritableScope, SignalsOf, TreeOf, ScopeText, Line;
    ShapeHasRoot(w.T());
    if designRoot.Some? {
      w.RemapDefinition(designRoot.value, rows);
      ShapeHasRoot(w.T());
    } else if WritableTables(w.T()) {
      TreeIsWritable(w.T(), 0);
    }
    after := TreeOf(w.T(), 0);
    w.Serialize(0);
    w.stream := w.stream + Line(["$enddefinitions", "$end"]);
  }

  /** What is written for a change; after an error only the times and the openers of dump sections. */
  function EventText(e: Event, failed: bool): string {
    if e.DumpAction? then e.action + "\n" else if failed && e.ValueChange? then "" else ChangeText(e)
  }

  function EventsText(es: seq<Event>, failed: bool): string {
    if es == [] then "" else EventText(es[0], failed) + EventsText(es[1..], failed)
  }

  lemma {:induction false} OrdinaryText(es: seq<Event>)
    requires AreOrdinary(es)
    ensures EventsText(es, false) == ChangesText(es)
  {
    if es != [] {
      assert es[0] in es && forall e :: e in es[1..] ==> e in es;
      OrdinaryText(es[1..]);
    }
  }

  method HearChanges(w: VCDReWriter, es: seq<Event>, failed: bool)
    modifies w`stream
    ensures w.stream == old(w.stream) + EventsText(es, failed)
  {
    hide EventText;
    assert es[0..] == es;
    for n := 0 to |es|
      invariant w.stream + EventsText(es[n..], failed) == old(w.stream) + EventsText(es, failed)
    {
      ghost var was := w.stream;
      assert es[n..][0] == es[n] && es[n..][1..] == es[n + 1..];
      w.stream := w.stream + EventText(es[n], failed);
      assert was + (EventText(es[n], failed) + EventsText(es[n + 1..], failed)) == w.stream + EventsText(es[n + 1..], failed);
    }
    assert w.stream + "" == w.stream;
  }

  /** What a dump needs to come through: it parses, its scopes have one root and variables only
      inside, the design root is found among them, new names have no blanks, there are no dump
      sections, and times can be read again. */
  ghost predicate Convertible(a: Run, designRoot: Option<nat>, rows: seq<Row>) {
    var r := HeardAll(NOTHING, DefsOf(a.events));
    && a.outcome == Done && DefinitionsEnd in a.events
    && r.Some? && designRoot.Some? && designRoot.value < |r.value.t.scopes|
    && (forall row :: row in rows ==> Unbroken(row.varName))
    && AreOrdinary(ChangesOf(a.events)) && forall e :: e in ChangesOf(a.events) ==> Fits(e)
  }

  /** convert(): parse the dump and hand everything to the callbacks. The design root is what the
      search among the scopes comes up with. For a dump that needs nothing special the text written
      parses again, into the headers, the signals and the changes of the original. */
  method Convert(w: VCDReWriter, input: string, designRoot: Option<nat>, rows: seq<Row>)
    returns (outcome: Outcome, ok: bool)
    requires w.State() == NOTHING && w.stream == ""
    requires forall r :: r in rows ==> TokensOf(r.rtlName, ".") != [] && TokensOf(r.varName, ".") != []
    modifies w
    ensures outcome == ParseDefs(Reads(input, 0)).outcome
    ensures var a := ParseDefs(Reads(input, 0));
      Convertible(a, designRoot, rows) ==> ok && SameDump(a, ParseDefs(Reads(w.stream, 0)))
  {
    hide ParseDefs, Reads, DefsOf, ChangesOf, SameDump, HeardAll, Shaped, WritableScope, AreChanges, EventsText;
    var parser := new VCDParser(input);
    outcome := parser.Parse();
    ghost var a := ParseDefs(Reads(input, 0));
    assert parser.events == [] + a.events == a.events && outcome == a.outcome;
    var defs, changes := DefsOf(parser.events), ChangesOf(parser.events);
    ok := HearDefinitions(w, defs);
    if !ok || DefinitionsEnd !in parser.events {
      return;
    }
    if w.scopes == [] || (designRoot.Some? && designRoot.value >= |w.scopes|) {
      ok := false;
      return;
    }
    ghost var t := w.T();
    ReadsAreWords(input, 0);
    ghost var rest := ParseReports(Reads(input, 0));
    DefinitionsHold(w.State(), defs);
    ghost var after := FinishDefinitions(w, designRoot, rows);
    HearChanges(w, changes, designRoot.None?);
    if Convertible(a, designRoot, rows) {
      ReportedChanges(rest, 0);
      OrdinaryText(changes);
      OutputIsSameDump(a, after);
      Together(HeadersText(defs), ScopeText(after), Line(["$enddefinitions", "$end"]), ChangesText(changes));
    }
  }

  lemma DefinitionsHold(r: Reading, defs: seq<Event>)
    requires HeardAll(NOTHING, defs) == Some(r) && AreDefinitions(defs) && Shaped(r) && r.t.scopes != []
    ensures Shape(r.t) && WritableTables(r.t) && Total(r.t, 0) == Declared(defs)
  {
    hide HeardAll;
    NothingIsShaped();
    HeardAllWritable(NOTHING, defs);
    HeardAllDeclared(NOTHING, defs);
  }

  lemma Together(a: string, b: string, c: string, d: string)
    ensures a + b + c + d == a + (b + c + d)
  {
  }
}
