/** The PEG of src/eval.cc with its semantic actions, rule by rule, and a maximal-munch lexer
    the rules are compared with.

    The grammar never reads the parser state, so a run of a rule is its outcome together with
    the list of actions it fired. PEGTL rewinds the input of an abandoned alternative but not
    its actions: a log only ever grows. */
module ExprGrammar {
  import opened Common
  import opened Text
  import opened ExprSyntax

  // ---- characters

  predicate IsSpace(c: char) {
    c == ' ' || c == '\n' || c == '\r' || c == '\t' || c == '\U{000B}' || c == '\U{000C}'
  }

  predicate IsXDigit(c: char) { IsDigit(c) || 'a' <= c <= 'f' || 'A' <= c <= 'F' }

  /** First character of a name: letter, underscore or dollar. */
  predicate IsHead(c: char) { 'a' <= c <= 'z' || 'A' <= c <= 'Z' || c == '_' || c == '$' }

  predicate At(s: string, i: nat, c: char) { i < |s| && s[i] == c }

  // ---- lexical rules: where a run of characters ends

  function SkipSpaces(s: string, i: nat): (j: nat)
    requires i <= |s|
    ensures i <= j <= |s|
    ensures j < |s| ==> !IsSpace(s[j])
    ensures i < |s| && !IsSpace(s[i]) ==> j == i
    decreases |s| - i
  {
    if i < |s| && IsSpace(s[i]) then SkipSpaces(s, i + 1) else i
  }

  function DigitsEnd(s: string, i: nat): (j: nat)
    requires i <= |s|
    ensures i <= j <= |s|
    decreases |s| - i
  {
    if i < |s| && IsDigit(s[i]) then DigitsEnd(s, i + 1) else i
  }

  function XDigitsEnd(s: string, i: nat): (j: nat)
    requires i <= |s|
    ensures i <= j <= |s|
    decreases |s| - i
  {
    if i < |s| && IsXDigit(s[i]) then XDigitsEnd(s, i + 1) else i
  }

  function WordEnd(s: string, i: nat): (j: nat)
    requires i <= |s|
    ensures i <= j <= |s|
    decreases |s| - i
  {
    if i < |s| && (IsHead(s[i]) || IsDigit(s[i])) then WordEnd(s, i + 1) else i
  }

  /** hex_integer: digits, a quote, an h, hexadecimal digits. */
  function HexEnd(s: string, i: nat): (r: Option<nat>)
    requires i <= |s|
    ensures r.Some? ==> i < r.value <= |s| && IsDigit(s[i])
  {
    var d := DigitsEnd(s, i);
    if d > i && At(s, d, '\'') && At(s, d + 1, 'h') && XDigitsEnd(s, d + 2) > d + 2
    then Some(XDigitsEnd(s, d + 2)) else None
  }

  /** Outcome of a lexical rule; Raised is the exception thrown by if_must. */
  datatype Scan = Matched(end: nat) | NoMatch | Raised

  /** One round of numeric_slice: a digit and optionally a colon with digits. */
  function SliceRound(s: string, i: nat): (r: Option<nat>)
    requires i <= |s|
    ensures r.Some? ==> i < r.value <= |s|
  {
    if i < |s| && IsDigit(s[i]) then
      if At(s, i + 1, ':') && DigitsEnd(s, i + 2) > i + 2 then Some(DigitsEnd(s, i + 2))
      else Some(i + 1)
    else None
  }

  function SliceRounds(s: string, i: nat): (j: nat)
    requires i <= |s|
    ensures i <= j <= |s|
    decreases |s| - i
  {
    match SliceRound(s, i)
    case Some(j) => SliceRounds(s, j)
    case None => i
  }

  /** variable_tail: once the bracket is open the rest must match. */
  function VariableTail(s: string, i: nat): (r: Scan)
    requires i <= |s|
    ensures r.Matched? ==> i < r.end <= |s|
  {
    if !At(s, i, '[') then NoMatch
    else if i + 1 < |s| && (IsHead(s[i + 1]) || IsDigit(s[i + 1])) then
      var j := if IsHead(s[i + 1]) then WordEnd(s, i + 1) else SliceRounds(s, i + 1);
      if At(s, j, ']') then Matched(j + 1) else Raised
    else Raised
  }

  function VariableTails(s: string, i: nat): (r: Scan)
    requires i <= |s|
    ensures !r.NoMatch?
    ensures r.Matched? ==> i <= r.end <= |s|
    decreases |s| - i
  {
    match VariableTail(s, i)
    case NoMatch => Matched(i)
    case Raised => Raised
    case Matched(j) => VariableTails(s, j)
  }

  function Variable2(s: string, i: nat): (r: Scan)
    requires i <= |s|
    ensures r.NoMatch? <==> !(i < |s| && IsHead(s[i]))
    ensures r.Matched? ==> i < r.end <= |s|
  {
    if i < |s| && IsHead(s[i]) then
      assert WordEnd(s, i) == WordEnd(s, i + 1);
      VariableTails(s, WordEnd(s, i))
    else NoMatch
  }

  function VariableRest(s: string, i: nat): (r: Scan)
    requires i <= |s|
    ensures !r.NoMatch?
    ensures r.Matched? ==> i <= r.end <= |s|
    decreases |s| - i
  {
    if At(s, i, '.') then
      match Variable2(s, i + 1)
      case NoMatch => Matched(i)
      case Raised => Raised
      case Matched(j) => VariableRest(s, j)
    else Matched(i)
  }

  /** variable: a dotted list of words with bracketed selects. */
  function Variable(s: string, i: nat): (r: Scan)
    requires i <= |s|
    ensures r.NoMatch? <==> !(i < |s| && IsHead(s[i]))
    ensures r.Matched? ==> i < r.end <= |s|
  {
    match Variable2(s, i)
    case NoMatch => NoMatch
    case Raised => Raised
    case Matched(j) => VariableRest(s, j)
  }

  // ---- operators of each precedence level, by their characters

  /** Length of the level-k operator at i, 0 if there is none. */
  function OpLength(k: nat, s: string, i: nat): (n: nat)
    ensures n > 0 ==> i + n <= |s|
  {
    match k
    case 1 => if At(s, i, '*') || At(s, i, '/') || At(s, i, '%') then 1 else 0
    case 2 => if At(s, i, '+') || At(s, i, '-') then 1 else 0
    case 3 =>
      if At(s, i, '<') || At(s, i, '>') then (if At(s, i + 1, '=') then 2 else 1) else 0
    case 4 => if (At(s, i, '=') || At(s, i, '!')) && At(s, i + 1, '=') then 2 else 0
    case 5 => if At(s, i, '&') then 1 else 0
    case 6 => if At(s, i, '^') then 1 else 0
    case 7 => if At(s, i, '|') then 1 else 0
    case 8 => if At(s, i, '&') && At(s, i + 1, '&') then 2 else 0
    case 9 => if At(s, i, '|') && At(s, i + 1, '|') then 2 else 0
    case _ => 0
  }

  /** The operator the action of level k pushes, read back from the matched text. */
  function OpPushed(k: nat, s: string, i: nat): Operator
    requires i < |s|
  {
    match k
    case 1 => if s[i] == '*' then Multiply else if s[i] == '/' then Divide else Mod
    case 2 => if s[i] == '+' then Add else Minus
    case 3 =>
      if At(s, i + 1, '=') then (if s[i] == '>' then GE else LE)
      else (if s[i] == '>' then GT else LT)
    case 4 => if s[i] == '=' then Eq else Neq
    case 5 => BAnd
    case 6 => Xor
    case 7 => BOr
    case 8 => And
    case _ => Or
  }

  predicate IsUnaryChar(c: char) { c == '!' || c == '~' || c == '+' || c == '-' }

  function UnaryPushed(c: char): Operator {
    if c == '!' then Not else if c == '~' then Invert else if c == '+' then UAdd else UMinus
  }

  // ---- the grammar

  /** What the semantic actions do to the parser state. */
  datatype Action =
    | PushLeaf(token: Token)
    | Apply(op: Operator)
    | Open
    | Close

  datatype Outcome = Ok(end: nat) | Fail | Raise

  datatype Run = Run(out: Outcome, log: seq<Action>)

  ghost predicate Within(r: Run, s: string, i: nat) {
    r.out.Ok? ==> i < r.out.end <= |s|
  }

  /** A run that succeeded and left no white space in front of what follows. */
  ghost predicate Padded(r: Run, s: string, i: nat) {
    Within(r, s, i) && (r.out.Ok? && r.out.end < |s| ==> !IsSpace(s[r.out.end]))
  }

  function Pad(s: string, r: Run): (p: Run)
    requires r.out.Ok? ==> r.out.end <= |s|
    ensures p.log == r.log
  {
    if r.out.Ok? then Run(Ok(SkipSpaces(s, r.out.end)), r.log) else r
  }

  /** sor<hex_integer, integer, variable, bracketed> */
  function Atom(s: string, i: nat): (r: Run)
    requires i <= |s|
    ensures Within(r, s, i)
    decreases |s| - i, 1
  {
    var h := HexEnd(s, i);
    if h.Some? then Run(Ok(h.value), [PushLeaf(Hex(s[i..h.value]))])
    else if DigitsEnd(s, i) > i then
      Run(Ok(DigitsEnd(s, i)), [PushLeaf(Int(s[i..DigitsEnd(s, i)]))])
    else
      match Variable(s, i)
      case Matched(j) => Run(Ok(j), [PushLeaf(Name(s[i..j]))])
      case Raised => Run(Raise, [])
      case NoMatch => Bracketed(s, i)
  }

  function Bracketed(s: string, i: nat): (r: Run)
    requires i <= |s|
    ensures Within(r, s, i)
    decreases |s| - i, 0
  {
    if At(s, i, '(') then
      var e := Binary(9, s, SkipSpaces(s, i + 1));
      if e.out.Ok? then
        var c := SkipSpaces(s, e.out.end);
        if At(s, c, ')') then Run(Ok(c + 1), [Open] + e.log + [Close])
        else Run(Fail, [Open] + e.log)
      else Run(e.out, [Open] + e.log)
    else Run(Fail, [])
  }

  function Value(s: string, i: nat): (r: Run)
    requires i <= |s|
    ensures Padded(r, s, i)
    decreases |s| - i, 2
  {
    Pad(s, Atom(s, SkipSpaces(s, i)))
  }

  /** unary_expression0: the second alternative starts over at the operator, and keeps
      whatever the first one logged. */
  function Unary0(s: string, i: nat): (r: Run)
    requires i <= |s|
    ensures Within(r, s, i)
    decreases |s| - i, 3
  {
    if i < |s| && IsUnaryChar(s[i]) then
      var v := Value(s, i + 1);
      match v.out
      case Ok(j) => Run(Ok(j), v.log + [Apply(UnaryPushed(s[i]))])
      case Raise => v
      case Fail =>
        var e := Unary(s, i + 1);
        if e.out.Ok? then Run(e.out, v.log + e.log + [Apply(UnaryPushed(s[i]))])
        else Run(e.out, v.log + e.log)
    else Run(Fail, [])
  }

  function Unary(s: string, i: nat): (r: Run)
    requires i <= |s|
    ensures Padded(r, s, i)
    decreases |s| - i, 4
  {
    var v := Value(s, i);
    if !v.out.Fail? then v
    else
      var u := Pad(s, Unary0(s, SkipSpaces(s, i)));
      Run(u.out, v.log + u.log)
  }

  /** The nine left-recursive-free levels multiplicative_expression .. lor_expression. */
  function Binary(k: nat, s: string, i: nat): (r: Run)
    requires i <= |s|
    ensures Padded(r, s, i)
    decreases |s| - i, 5 + k
  {
    if k == 0 then Unary(s, i)
    else
      var l := Binary(k - 1, s, i);
      if !l.out.Ok? then l
      else
        var t := Tail(k, s, l.out.end);
        Run(t.out, l.log + t.log)
  }

  /** star<level_expression0>: an abandoned round rewinds the input, not the log. */
  function Tail(k: nat, s: string, i: nat): (r: Run)
    requires 1 <= k && i <= |s|
    ensures !r.out.Fail?
    ensures r.out.Ok? ==> i <= r.out.end <= |s|
    ensures r.out.Ok? && (i < |s| ==> !IsSpace(s[i])) && r.out.end < |s| ==> !IsSpace(s[r.out.end])
    decreases |s| - i, 0
  {
    var n := OpLength(k, s, i);
    if n == 0 then Run(Ok(i), [])
    else
      var e := Binary(k - 1, s, i + n);
      match e.out
      case Ok(j) =>
        var t := Tail(k, s, j);
        Run(t.out, e.log + [Apply(OpPushed(k, s, i))] + t.log)
      case Fail => Run(Ok(i), e.log)
      case Raise => e
  }

  /** grammar: an expression up to the end of the input. */
  function Parse(s: string): Run {
    var r := Binary(9, s, 0);
    if r.out.Ok? && r.out.end < |s| then Run(Fail, r.log) else r
  }

  predicate Accepts(s: string) {
    Parse(s).out.Ok?
  }

  // ---- maximal munch

  function Punctuator(s: string, i: nat): (r: (Token, nat))
    requires i < |s|
    ensures i < r.1 <= |s|
  {
    match s[i]
    case '(' => (P(LParen), i + 1)
    case ')' => (P(RParen), i + 1)
    case '*' => (P(Star), i + 1)
    case '/' => (P(Slash), i + 1)
    case '%' => (P(Percent), i + 1)
    case '+' => (P(Plus), i + 1)
    case '-' => (P(Dash), i + 1)
    case '~' => (P(Tilde), i + 1)
    case '^' => (P(Caret), i + 1)
    case '<' => if At(s, i + 1, '=') then (P(LessEq), i + 2) else (P(Less), i + 1)
    case '>' => if At(s, i + 1, '=') then (P(GreaterEq), i + 2) else (P(Greater), i + 1)
    case '!' => if At(s, i + 1, '=') then (P(NotEq), i + 2) else (P(Bang), i + 1)
    case '=' => if At(s, i + 1, '=') then (P(EqEq), i + 2) else (Bad('='), i + 1)
    case '&' => if At(s, i + 1, '&') then (P(AmpAmp), i + 2) else (P(Amp), i + 1)
    case '|' => if At(s, i + 1, '|') then (P(BarBar), i + 2) else (P(Bar), i + 1)
    case c => (Bad(c), i + 1)
  }

  function NextToken(s: string, i: nat): (r: (Token, nat))
    requires i < |s|
    ensures i < r.1 <= |s|
  {
    var h := HexEnd(s, i);
    if h.Some? then (Hex(s[i..h.value]), h.value)
    else if IsDigit(s[i]) then (Int(s[i..DigitsEnd(s, i + 1)]), DigitsEnd(s, i + 1))
    else if IsHead(s[i]) then
      match Variable(s, i)
      case Matched(j) => (Name(s[i..j]), j)
      case _ => (Bad(s[i]), i + 1)
    else Punctuator(s, i)
  }

  /** The tokens of s from position i on. */
  function Lex(s: string, i: nat): (ts: seq<Token>)
    requires i <= |s|
    decreases |s| - i
  {
    var p := SkipSpaces(s, i);
    if p == |s| then []
    else
      var (t, j) := NextToken(s, p);
      [t] + Lex(s, j)
  }
}
