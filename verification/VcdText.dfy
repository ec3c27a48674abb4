/** Reading value change dumps: tools/vcd/vcd.cc, for the format of section 18.2 of IEEE Std
    1364-2005. The callbacks of the parser are a list of events. */
module VcdText {
  import opened Common
  import opened Text

  const BLANKS: string := " \t\r\n\U{000C}"

  datatype Meta = Date | Version | Timescale | Comment

  datatype Event =
    | MetaInfo(meta: Meta, text: string)
    | EnterScope(kind: string, name: string)
    | ExitScope
    | VarDef(kind: string, width: nat, identifier: string, name: string, slice: string)
    | DefinitionsEnd
    | TimeChange(time: nat)
    | ValueChange(time: nat, identifier: string, value: string, isEvent: bool)
    | DumpAction(action: string)

  /** How a parse ends: well, with an error, by an exception, or not at all. */
  datatype Outcome = Done | Rejected | Throws | Hangs

  datatype Run = Run(events: seq<Event>, outcome: Outcome)

  // ---- next_token

  /** Reads on from pos. A token that the end of the text cuts off gets the character the failed
      read left behind. */
  function Scan(text: string, pos: nat, token: string): (r: (string, nat, bool))
    requires pos <= |text|
    ensures pos <= r.1 <= |text| && r.0 != "" && (!r.2 ==> r.1 > pos)
    decreases |text| - pos
  {
    if pos == |text| then (token + ['\0'], pos, true)
    else if text[pos] in BLANKS then
      if token == "" then Scan(text, pos + 1, "") else (token, pos + 1, false)
    else Scan(text, pos + 1, token + [text[pos]])
  }

  /** All tokens the stream gives out from pos on, before it gives out nothing. */
  function Reads(text: string, pos: nat): (ts: seq<string>)
    requires pos <= |text|
    ensures ts != [] && forall t :: t in ts ==> t != ""
    decreases |text| - pos
  {
    var (token, next, eof) := Scan(text, pos, "");
    if eof then [token] else [token] + Reads(text, next)
  }

  // ---- the parser on tokens

  function Head(ts: seq<string>): string { if ts == [] then "" else ts[0] }

  function Tail(ts: seq<string>): seq<string> { if ts == [] then [] else ts[1..] }

  const U64: int := 0x1_0000_0000_0000_0000
  const U32: int := 0x1_0000_0000

  function DigitsOf(t: string): string {
    if t == "" || !IsDigit(t[0]) then "" else [t[0]] + DigitsOf(t[1..])
  }

  function Sign(t: string): int { if t != "" && t[0] == '-' then -1 else 1 }

  /** Sign and leading digits of a token. None: it does not start with a number. */
  function Leading(t: string): Option<int> {
    var signed := t != "" && (t[0] == '-' || t[0] == '+');
    var digits := DigitsOf(if signed then t[1..] else t);
    if digits == "" then None else Some(Sign(t) * Numeral(digits, 10))
  }

  /** std::stoul, stored in 32 bits. None: it throws. */
  function Width(t: string): Option<nat> {
    match Leading(t)
    case None => None
    case Some(v) => if -U64 < v < U64 then Some(v % U32) else None
  }

  /** std::stoi, stored in 64 unsigned bits. None: it throws. */
  function Timestamp(t: string): Option<nat> {
    match Leading(t)
    case None => None
    case Some(v) => if -0x8000_0000 <= v < 0x8000_0000 then Some(v % U64) else None
  }

  /** A token that starts with a number, signed or not, reads as that number; any other reads as
      none. */
  lemma NumbersRead(v: nat, junk: string)
    requires junk == "" || !IsDigit(junk[0])
    ensures var t := Decimal(v) + junk;
      && Leading(t) == Some(v) && Leading("+" + t) == Some(v)
      && Leading("-" + t).Some? && Leading("-" + t).value + v == 0
    ensures junk == "" || junk[0] !in {'-', '+'} ==> Leading(junk).None?
  {
    hide Decimal, Numeral, DigitsOf;
    var t := Decimal(v) + junk;
    DecimalReads(v);
    DigitsThen(Decimal(v), junk);
    DigitsThen("", junk);
    assert "" + junk == junk && IsDigit(t[0]);
    assert ("-" + t)[1..] == t && ("+" + t)[1..] == t;
  }

  lemma {:induction false} DigitsThen(t: string, junk: string)
    requires AllDigits(t) && (junk == "" || !IsDigit(junk[0]))
    ensures DigitsOf(t + junk) == t
  {
    if t == "" {
      assert t + junk == junk;
    } else {
      assert (t + junk)[1..] == t[1..] + junk;
      DigitsThen(t[1..], junk);
    }
  }

  /** A width is accepted below 2^64 either way and kept modulo 2^32, a time below 2^31 and kept modulo
      2^64: negative ones come out as large ones. */
  lemma NumbersKept(t: string)
    ensures Width(t).Some? <==> Leading(t).Some? && Abs(Leading(t).value) < U64
    ensures Width(t).Some? ==> Width(t).value < U32 && (Width(t).value - Leading(t).value) % U32 == 0
    ensures Timestamp(t).Some? <==> Leading(t).Some? && -0x8000_0000 <= Leading(t).value <= 0x7FFF_FFFF
    ensures Timestamp(t).Some? ==>
      Timestamp(t).value == if Leading(t).value >= 0 then Leading(t).value else U64 + Leading(t).value
  {
  }

  function Abs(x: int): int { if x < 0 then -x else x }

  function MetaOf(token: string): Option<Meta> {
    if token == "$date" then Some(Date)
    else if token == "$version" then Some(Version)
    else if token == "$timescale" then Some(Timescale)
    else if token == "$comment" then Some(Comment)
    else None
  }

  /** The text up to $end, each word after a blank, and what follows. None: the reader waits for
      $end forever. */
  function MetaText(ts: seq<string>): Option<(string, seq<string>)>
    decreases |ts|
  {
    if ts == [] then None
    else if ts[0] == "$end" then Some(("", ts[1..]))
    else match MetaText(ts[1..])
      case None => None
      case Some((text, rest)) => Some((" " + ts[0] + text, rest))
  }

  lemma {:induction false} MetaTextShrinks(ts: seq<string>)
    ensures MetaText(ts).Some? ==> |MetaText(ts).value.1| < |ts|
    decreases |ts|
  {
    if ts != [] && ts[0] != "$end" { MetaTextShrinks(ts[1..]); }
  }

  function Prepend(e: Event, r: Run): Run { Run([e] + r.events, r.outcome) }

  function Drop(ts: seq<string>, n: nat): seq<string> {
    if n <= |ts| then ts[n..] else []
  }

  function Nth(ts: seq<string>, n: nat): string {
    if n < |ts| then ts[n] else ""
  }

  /** parse: the definitions. */
  function ParseDefs(ts: seq<string>): Run
    decreases |ts|
  {
    if ts == [] then Run([], Done)
    else if MetaOf(ts[0]).Some? then
      match MetaText(ts[1..])
      case None => Run([], Hangs)
      case Some((text, rest)) =>
        MetaTextShrinks(ts[1..]);
        Prepend(MetaInfo(MetaOf(ts[0]).value, text), ParseDefs(rest))
    else if ts[0] == "$scope" then
      if Nth(ts, 3) == "$end" then Prepend(EnterScope(Nth(ts, 1), Nth(ts, 2)), ParseDefs(Drop(ts, 4)))
      else Run([], Rejected)
    else if ts[0] == "$upscope" then
      if Nth(ts, 1) == "$end" then Prepend(ExitScope, ParseDefs(Drop(ts, 2))) else Run([], Rejected)
    else if ts[0] == "$var" then
      match Width(Nth(ts, 2))
      case None => Run([], Throws)
      case Some(width) =>
        if Nth(ts, 5) == "$end" then
          Prepend(VarDef(Nth(ts, 1), width, Nth(ts, 3), Nth(ts, 4), ""), ParseDefs(Drop(ts, 6)))
        else if Nth(ts, 6) == "$end" then
          Prepend(VarDef(Nth(ts, 1), width, Nth(ts, 3), Nth(ts, 4), Nth(ts, 5)), ParseDefs(Drop(ts, 7)))
        else Run([], Rejected)
    else if ts[0] == "$enddefinitions" then
      if Nth(ts, 1) == "$end" then Prepend(DefinitionsEnd, ParseValues(Drop(ts, 2), 0))
      else Run([], Rejected)
    else Run([], Rejected)
  }

  predicate IsScalar(c: char) { c == '0' || c == '1' || c == 'x' || c == 'z' }

  predicate IsDump(t: string) {
    t == "$dumpvars" || t == "$dumpall" || t == "$dumpon" || t == "$dumpoff"
  }

  /** parse_vcd_values. */
  function ParseValues(ts: seq<string>, time: nat): Run
    decreases |ts|, 0
  {
    if ts == [] then Run([], Done)
    else if ts[0] == "" then Run([], Done)
    else if ts[0][0] == '#' then
      match Timestamp(ts[0][1..])
      case None => Run([], Throws)
      case Some(t) => Prepend(TimeChange(t), ParseValues(ts[1..], t))
    else if IsScalar(ts[0][0]) then
      Prepend(ValueChange(time, ts[0][1..], ts[0][..1], true), ParseValues(ts[1..], time))
    else if ts[0][0] == 'b' then
      Prepend(ValueChange(time, Nth(ts, 1), ts[0][1..], false), ParseValues(Drop(ts, 2), time))
    else if IsDump(ts[0]) then Prepend(DumpAction(ts[0]), ParseDump(ts[1..], time))
    else ParseValues(ts[1..], time)
  }

  /** The values of a dump section, up to its $end. */
  function ParseDump(ts: seq<string>, time: nat): Run
    decreases |ts|, 1
  {
    if ts == [] then Run([], Hangs)
    else if ts[0] == "$end" then ParseValues(ts[1..], time)
    else if ts[0] != "" && IsScalar(ts[0][0]) then
      Prepend(ValueChange(time, ts[0][1..], ts[0][..1], true), ParseDump(ts[1..], time))
    else if ts[0] != "" && ts[0][0] == 'b' then
      Prepend(ValueChange(time, Nth(ts, 1), ts[0][1..], false), ParseDump(Drop(ts, 2), time))
    else ParseDump(ts[1..], time)
  }

  // ---- the parser at work

  class VCDParser {
    const text: string
    var pos: nat
    var eof: bool
    var events: seq<Event>

    constructor (text: string)
      ensures this.text == text && pos == 0 && !eof && events == []
    {
      this.text := text;
      pos, eof, events := 0, false, [];
    }

    ghost predicate Valid()
      reads this`pos
    {
      pos <= |text|
    }

    /** Tokens still to come. */
    ghost function Rest(): seq<string>
      requires Valid()
      reads this`pos, this`eof
    {
      if eof then [] else Reads(text, pos)
    }

    method NextToken() returns (token: string)
      requires Valid()
      modifies this`pos, this`eof
      ensures Valid() && token == Head(old(Rest())) && Rest() == Tail(old(Rest()))
    {
      token := "";
      var length := 0;
      ghost var want := Scan(text, pos, "");
      while !eof
        invariant pos <= |text| && length == |token|
        invariant !old(eof) ==> if eof then (token, pos, true) == want else Scan(text, pos, token) == want
        invariant old(eof) ==> eof && token == "" && pos == old(pos)
        decreases if eof then 0 else 1, |text| - pos
      {
        var c := '\0';
        if pos < |text| {
          c := text[pos];
          pos := pos + 1;
        } else {
          eof := true;
        }
        if c == ' ' || c == '\t' || c == '\r' || c == '\n' || c == '\U{000C}' {
          if length == 0 {
            continue;
          } else {
            break;
          }
        }
        token := token + [c];
        length := length + 1;
      }
    }

    /** parse_meta. The real loop never ends when $end is missing. */
    method ParseMeta(meta: Meta) returns (ended: bool)
      requires Valid()
      modifies this`pos, this`eof, this`events
      ensures Valid()
      ensures match MetaText(old(Rest()))
        case None => !ended && events == old(events)
        case Some((text, rest)) => ended && events == old(events) + [MetaInfo(meta, text)] && Rest() == rest
    {
      hide Rest;
      hide Reads;
      var info := "";
      ghost var ts := Rest();
      if MetaText(ts).Some? { assert "" + MetaText(ts).value.0 == MetaText(ts).value.0; }
      while true
        invariant Valid() && events == old(events)
        invariant MetaText(ts) == match MetaText(Rest())
          case None => None
          case Some((text, rest)) => Some((info + text, rest))
        decreases |Rest()|
      {
        ghost var now := Rest();
        WordsOnly(this);
        var token := NextToken();
        if token == "" {
          return false;
        }
        if token == "$end" {
          assert info + "" == info;
          events := events + [MetaInfo(meta, info)];
          return true;
        }
        if MetaText(now[1..]).Some? {
          Reassociate(info, " ", token, MetaText(now[1..]).value.0);
        }
        info := info + " " + token;
      }
    }

    /** parse_scope_def. */
    method ParseScopeDef() returns (ok: bool)
      requires Valid()
      modifies this`pos, this`eof, this`events
      ensures Valid() && ok == (Nth(old(Rest()), 2) == "$end")
      ensures ok ==> Rest() == Drop(old(Rest()), 3)
      ensures events == if ok then old(events) + [EnterScope(Nth(old(Rest()), 0), Nth(old(Rest()), 1))] else old(events)
    {
      DropByOne(Rest());
      var kind := NextToken();
      var name := NextToken();
      var token := NextToken();
      if token != "$end" {
        return false;
      }
      events := events + [EnterScope(kind, name)];
      ok := true;
    }

    /** parse_var_def. */
    method ParseVarDef() returns (outcome: Outcome)
      requires Valid()
      modifies this`pos, this`eof, this`events
      ensures Valid()
      ensures var ts := old(Rest());
        match Width(Nth(ts, 1))
        case None => outcome == Throws && events == old(events)
        case Some(width) =>
          if Nth(ts, 4) == "$end" then
            outcome == Done && Rest() == Drop(ts, 5)
            && events == old(events) + [VarDef(Nth(ts, 0), width, Nth(ts, 2), Nth(ts, 3), "")]
          else if Nth(ts, 5) == "$end" then
            outcome == Done && Rest() == Drop(ts, 6)
            && events == old(events) + [VarDef(Nth(ts, 0), width, Nth(ts, 2), Nth(ts, 3), Nth(ts, 4))]
          else outcome == Rejected && events == old(events)
    {
      DropByOne(Rest());
      var kind := NextToken();
      var token := NextToken();
      var width := Width(token);
      if width.None? {
        return Throws;
      }
      var identifier := NextToken();
      var name := NextToken();
      token := NextToken();
      var slice := "";
      if token != "$end" {
        slice := token;
        token := NextToken();
        if token != "$end" {
          return Rejected;
        }
      }
      events := events + [VarDef(kind, width.value, identifier, name, slice)];
      outcome := Done;
    }

    /** parse: the callbacks fired and the outcome are those of ParseDefs. */
    method Parse() returns (outcome: Outcome)
      requires Valid()
      modifies this`pos, this`eof, this`events
      ensures Valid() && Run(events, outcome) == Later(old(events), ParseDefs(old(Rest())))
    {
      hide MetaText, Width, Timestamp, ParseValues, Rest, Later, Prepend, Drop, Nth;
      LaterEnds();
      ghost var want := Later(events, ParseDefs(Rest()));
      while true
        invariant Valid() && Later(events, ParseDefs(Rest())) == want
        decreases |Rest()|
      {
        ghost var ts := Rest();
        ghost var before := events;
        DropByOne(ts);
        WordsOnly(this);
        var token := NextToken();
        if token == "" {
          return Done;
        }
        var meta := MetaOf(token);
        if meta.Some? {
          MetaTextShrinks(ts[1..]);
          var ended := ParseMeta(meta.value);
          if !ended {
            return Hangs;
          }
        } else if token == "$scope" {
          var ok := ParseScopeDef();
          if !ok {
            return Rejected;
          }
        } else if token == "$upscope" {
          token := NextToken();
          if token != "$end" {
            return Rejected;
          }
          events := events + [ExitScope];
        } else if token == "$var" {
          outcome := ParseVarDef();
          if outcome != Done {
            return;
          }
        } else if token == "$enddefinitions" {
          token := NextToken();
          if token != "$end" {
            return Rejected;
          }
          events := events + [DefinitionsEnd];
          outcome := ParseVcdValues();
          return;
        } else {
          return Rejected;
        }
      }
    }

    method ParseVcdValues() returns (outcome: Outcome)
      requires Valid()
      modifies this`pos, this`eof, this`events
      ensures Valid() && Run(events, outcome) == Later(old(events), ParseValues(old(Rest()), 0))
    {
      hide Timestamp, Rest, Later, Prepend, Drop, Nth, ParseDump;
      LaterEnds();
      var timestamp := 0;
      ghost var want := Later(events, ParseValues(Rest(), 0));
      while true
        invariant Valid() && Later(events, ParseValues(Rest(), timestamp)) == want
        decreases |Rest()|
      {
        ghost var ts := Rest();
        DropByOne(ts);
        WordsOnly(this);
        var token := NextToken();
        if token == "" {
          return Done;
        }
        if token[0] == '#' {
          var t := Timestamp(token[1..]);
          if t.None? {
            return Throws;
          }
          timestamp := t.value;
          events := events + [TimeChange(timestamp)];
        } else if IsScalar(token[0]) {
          events := events + [ValueChange(timestamp, token[1..], token[..1], true)];
        } else if token[0] == 'b' {
          var identifier := NextToken();
          events := events + [ValueChange(timestamp, identifier, token[1..], false)];
        } else if IsDump(token) {
          events := events + [DumpAction(token)];
          var ended := ParseDumpValues(timestamp);
          if !ended {
            return Hangs;
          }
        }
      }
    }

    /** The values of a dump section. The real loop never ends when $end is missing. */
    method ParseDumpValues(timestamp: nat) returns (ended: bool)
      requires Valid()
      modifies this`pos, this`eof, this`events
      ensures Valid()
      ensures ended ==>
        Later(events, ParseValues(Rest(), timestamp)) == Later(old(events), ParseDump(old(Rest()), timestamp))
        && |Rest()| < |old(Rest())|
      ensures !ended ==> Run(events, Hangs) == Later(old(events), ParseDump(old(Rest()), timestamp))
    {
      hide ParseValues, Rest, Later, Prepend, Drop, Nth;
      LaterEnds();
      ghost var want := Later(events, ParseDump(Rest(), timestamp));
      while true
        invariant Valid() && Later(events, ParseDump(Rest(), timestamp)) == want && |Rest()| <= |old(Rest())|
        decreases |Rest()|
      {
        ghost var ts := Rest();
        DropByOne(ts);
        WordsOnly(this);
        var token := NextToken();
        if token == "" {
          return false;
        }
        if token == "$end" {
          return true;
        } else if IsScalar(token[0]) {
          events := events + [ValueChange(timestamp, token[1..], token[..1], true)];
        } else if token[0] == 'b' {
          var identifier := NextToken();
          events := events + [ValueChange(timestamp, identifier, token[1..], false)];
        }
      }
    }
  }

  /** A run with earlier events in front. */
  function Later(before: seq<Event>, r: Run): Run {
    Run(before + r.events, r.outcome)
  }

  lemma LaterEnds()
    ensures forall before, outcome :: Later(before, Run([], outcome)) == Run(before, outcome)
    ensures forall before, e, r :: Later(before, Prepend(e, r)) == Later(before + [e], r)
  {
    forall before: seq<Event>, e, r: Run ensures Later(before, Prepend(e, r)) == Later(before + [e], r) {
      assert before + ([e] + r.events) == before + [e] + r.events;
    }
  }

  lemma Reassociate(a: string, b: string, c: string, d: string)
    ensures (a + b + c) + d == a + (b + c + d)
  {
  }

  lemma DropByOne(ts: seq<string>)
    ensures Drop(ts, 0) == ts && Drop(ts, 1) == Tail(ts) && Nth(ts, 0) == Head(ts)
    ensures forall n: nat :: Head(Drop(ts, n)) == Nth(ts, n) && Tail(Drop(ts, n)) == Drop(ts, n + 1)
    ensures forall n: nat :: Nth(Tail(ts), n) == Nth(ts, n + 1) && Drop(Tail(ts), n) == Drop(ts, n + 1)
    ensures forall n: nat :: ts != [] && n > 0 ==> |Drop(ts, n)| < |ts|
  {
  }

  lemma WordsOnly(p: VCDParser)
    requires p.Valid()
    ensures Head(p.Rest()) == "" <==> p.Rest() == []
  {
  }
}
