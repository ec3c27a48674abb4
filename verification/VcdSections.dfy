/** When reading a dump (tools/vcd/vcd.cc) ends: a comment or header, and a dump section, wait for
    their $end, and a vector value takes the token behind it, $end included; and what a dump section
    reports. */
module VcdSections {
  import opened Common
  import opened Text
  import opened VcdText
  import opened VcdRoundTrip

  // ---- headers

  function FirstEnd(ts: seq<string>): (k: nat)
    ensures k <= |ts| && (k < |ts| ==> ts[k] == "$end") && forall i :: 0 <= i < k ==> ts[i] != "$end"
  {
    if ts == [] || ts[0] == "$end" then 0 else 1 + FirstEnd(ts[1..])
  }

  /** A header or comment is read to the first $end, and forever without one. */
  lemma {:induction false} MetaEndsExactly(ts: seq<string>)
    ensures MetaText(ts).None? <==> "$end" !in ts
    ensures MetaText(ts).Some? ==> MetaText(ts).value.1 == ts[FirstEnd(ts) + 1..]
  {
    if ts != [] && ts[0] != "$end" {
      MetaEndsExactly(ts[1..]);
      assert "$end" in ts <==> "$end" in ts[1..];
    }
  }

  // ---- value changes

  predicate StartsVector(t: string) {
    t != "" && t[0] == 'b'
  }

  /** The token at i is read as a change or a command, not as the identifier of a vector value. */
  predicate ReadAt(ts: seq<string>, i: nat) {
    i < |ts| && (i == 0 || !(ReadAt(ts, i - 1) && StartsVector(ts[i - 1])))
  }

  /** Some dump section was opened in front of i and no $end was read since. */
  ghost predicate InSection(ts: seq<string>, i: nat) {
    exists j :: 0 <= j < i && OpenSince(ts, j, i)
  }

  ghost predicate OpenSince(ts: seq<string>, j: nat, i: nat) {
    ReadAt(ts, j) && IsDump(ts[j]) && forall k :: j < k < i && ReadAt(ts, k) ==> ts[k] != "$end"
  }

  /** A time outside of dump sections that does not fit. */
  ghost predicate BadTime(ts: seq<string>, i: nat) {
    ReadAt(ts, i) && !InSection(ts, i) && IsBadTime(ts[i])
  }

  predicate IsBadTime(t: string) {
    t != "" && t[0] == '#' && Timestamp(t[1..]).None?
  }

  /** The same, by counting along; inside says whether reading starts in a section. */
  predicate Inside(ts: seq<string>, i: nat, inside: bool)
    requires i <= |ts|
  {
    if i == 0 then inside
    else if !ReadAt(ts, i - 1) then Inside(ts, i - 1, inside)
    else if Inside(ts, i - 1, inside) then ts[i - 1] != "$end"
    else IsDump(ts[i - 1])
  }

  lemma {:induction false} InsideIsInSection(ts: seq<string>, i: nat)
    requires i <= |ts|
    ensures Inside(ts, i, false) <==> InSection(ts, i)
  {
    if i > 0 {
      InsideIsInSection(ts, i - 1);
      if ReadAt(ts, i - 1) && IsDump(ts[i - 1]) {
        assert OpenSince(ts, i - 1, i);
      } else if InSection(ts, i - 1) {
        var j :| 0 <= j < i - 1 && OpenSince(ts, j, i - 1);
        assert OpenSince(ts, j, i) <==> !(ReadAt(ts, i - 1) && ts[i - 1] == "$end");
      }
      if j :| 0 <= j < i && OpenSince(ts, j, i) {
        assert j < i - 1 ==> OpenSince(ts, j, i - 1);
      }
    }
  }

  /** What is read of the rest once the first token, or a vector value with its identifier, is
      gone. */
  lemma {:induction false} ReadShift(ts: seq<string>, n: nat, i: nat)
    requires ts != [] && n == (if StartsVector(ts[0]) then 2 else 1) && n <= |ts| && n <= i
    ensures ReadAt(ts, i) <==> ReadAt(ts[n..], i - n)
  {
    if i > n {
      ReadShift(ts, n, i - 1);
    } else if n == 2 {
      assert ReadAt(ts, 0) && !ReadAt(ts, 1);
    }
  }

  function Mode(t: string, inside: bool): bool {
    if inside then t != "$end" else IsDump(t)
  }

  lemma {:induction false} InsideShift(ts: seq<string>, n: nat, i: nat, inside: bool)
    requires ts != [] && n == (if StartsVector(ts[0]) then 2 else 1) && n <= i <= |ts|
    ensures Inside(ts, i, inside) == Inside(ts[n..], i - n, Mode(ts[0], inside))
  {
    assert ReadAt(ts, 0) && Inside(ts, 0, inside) == inside;
    if i > n {
      ReadShift(ts, n, i - 1);
      InsideShift(ts, n, i - 1, inside);
    } else if n == 2 {
      assert !ReadAt(ts, 1);
      assert Inside(ts, 1, inside) == Mode(ts[0], inside);
    }
  }

  predicate ThrowsAt(ts: seq<string>, i: nat, inside: bool) {
    ReadAt(ts, i) && !Inside(ts, i, inside) && IsBadTime(ts[i])
  }

  ghost predicate Throwing(ts: seq<string>, inside: bool) {
    exists i :: ThrowsAt(ts, i, inside)
  }

  lemma ThrowsAtShift(ts: seq<string>, n: nat, i: nat, inside: bool)
    requires ts != [] && n == (if StartsVector(ts[0]) then 2 else 1) && n <= |ts| && n <= i
    ensures ThrowsAt(ts, i, inside) <==> ThrowsAt(ts[n..], i - n, Mode(ts[0], inside))
  {
    hide Inside, IsBadTime, Mode;
    ReadShift(ts, n, i);
    if i < |ts| {
      InsideShift(ts, n, i, inside);
      assert ts[n..][i - n] == ts[i];
    }
  }

  lemma ThrowsAtFront(ts: seq<string>, inside: bool)
    requires ts != []
    ensures ThrowsAt(ts, 0, inside) <==> !inside && IsBadTime(ts[0])
    ensures StartsVector(ts[0]) ==> !ThrowsAt(ts, 1, inside) && !ThrowsAt(ts, 0, inside)
  {
    assert ReadAt(ts, 0);
  }

  lemma ThrowingShift(ts: seq<string>, n: nat, inside: bool)
    requires ts != [] && n == (if StartsVector(ts[0]) then 2 else 1) && n <= |ts|
    ensures Throwing(ts, inside) <==> (!inside && IsBadTime(ts[0])) || Throwing(ts[n..], Mode(ts[0], inside))
  {
    hide ThrowsAt, IsBadTime, Mode;
    ThrowsAtFront(ts, inside);
    if i: nat :| ThrowsAt(ts, i, inside) {
      if i >= n {
        ThrowsAtShift(ts, n, i, inside);
      } else {
        assert i == 0 || i == 1;
      }
    }
    if i: nat :| ThrowsAt(ts[n..], i, Mode(ts[0], inside)) {
      ThrowsAtShift(ts, n, i + n, inside);
    }
  }

  function ParseIn(ts: seq<string>, time: nat, inside: bool): Run {
    if inside then ParseDump(ts, time) else ParseValues(ts, time)
  }

  ghost predicate EndsAs(ts: seq<string>, outcome: Outcome, inside: bool) {
    outcome == if Throwing(ts, inside) then Throws else if Inside(ts, |ts|, inside) then Hangs else Done
  }

  lemma {:induction false} ModesEnd(ts: seq<string>, time: nat, inside: bool)
    requires forall t :: t in ts ==> t != ""
    ensures EndsAs(ts, ParseIn(ts, time, inside).outcome, inside)
    decreases |ts|
  {
    if ts != [] {
      assert ts[0] in ts && ts[0] != "";
      var n := if StartsVector(ts[0]) then 2 else 1;
      if n > |ts| {
        OneVector(ts, time, inside);
      } else {
        var rest, mode := ts[n..], Mode(ts[0], inside);
        assert forall t :: t in rest ==> t in ts;
        ThrowingShift(ts, n, inside);
        InsideShift(ts, n, |ts|, inside);
        var next := NextTime(ts[0], time, inside);
        ModesEnd(rest, next, mode);
        ParseStep(ts, time, inside, n);
      }
    }
  }

  function NextTime(t: string, time: nat, inside: bool): nat {
    if !inside && t != "" && t[0] == '#' && Timestamp(t[1..]).Some? then Timestamp(t[1..]).value else time
  }

  lemma ParseStep(ts: seq<string>, time: nat, inside: bool, n: nat)
    requires ts != [] && ts[0] != "" && n == (if StartsVector(ts[0]) then 2 else 1) && n <= |ts|
    ensures ParseIn(ts, time, inside).outcome ==
      if !inside && IsBadTime(ts[0]) then Throws
      else ParseIn(ts[n..], NextTime(ts[0], time, inside), Mode(ts[0], inside)).outcome
  {
  }

  lemma OneVector(ts: seq<string>, time: nat, inside: bool)
    requires |ts| == 1 && StartsVector(ts[0])
    ensures EndsAs(ts, ParseIn(ts, time, inside).outcome, inside)
  {
    assert Drop(ts, 2) == [];
    assert Inside(ts, 1, inside) == inside by {
      assert ReadAt(ts, 0) && Inside(ts, 0, inside) == inside;
    }
    assert !Throwing(ts, inside);
    assert ParseIn(ts, time, inside).outcome == ParseIn([], time, inside).outcome;
  }

  /** How reading the changes ends: by an exception exactly at a time that does not fit, never when
      a dump section is still open at the end, and well otherwise. */
  lemma ValuesEndExactly(ts: seq<string>, time: nat)
    requires forall t :: t in ts ==> t != ""
    ensures ParseValues(ts, time).outcome == Throws <==> exists i: nat :: BadTime(ts, i)
    ensures ParseValues(ts, time).outcome == Hangs
      <==> InSection(ts, |ts|) && !exists i: nat :: BadTime(ts, i)
    ensures ParseValues(ts, time).outcome != Rejected
  {
    hide Inside, InSection, IsBadTime, ParseValues, ParseDump;
    ModesEnd(ts, time, false);
    InsideIsInSection(ts, |ts|);
    forall i: nat ensures ThrowsAt(ts, i, false) <==> BadTime(ts, i) {
      if i < |ts| { InsideIsInSection(ts, i); }
    }
    assert (exists i: nat :: BadTime(ts, i)) <==> Throwing(ts, false);
  }

  /** So an $end behind a vector value without its identifier closes nothing. */
  lemma SwallowedEnd()
    ensures ParseValues(["$dumpvars", "b1", "$end", ['\0']], 0).outcome == Hangs
    ensures ParseValues(["$dumpvars", "b1", "!", "$end", ['\0']], 0).outcome == Done
  {
  }

  // ---- what is reported

  /** Value changes at one time, as they are written. */
  ghost predicate AreValues(es: seq<Event>, time: nat) {
    forall e :: e in es ==> e.ValueChange? && e.time == time && (e.isEvent ==> e.value in {"0", "1", "x", "z"})
  }

  /** A dump section reports its command and then the value changes in it, identifiers, values and
      kinds as they were written, at the running time; reading goes on behind its $end. */
  lemma SectionReports(command: string, es: seq<Event>, rest: seq<string>, time: nat)
    requires command in {"$dumpvars", "$dumpall", "$dumpon", "$dumpoff"} && AreValues(es, time)
    ensures ParseValues([command] + (ChangesTokens(es) + (["$end"] + rest)), time)
      == Later([DumpAction(command)] + es, ParseValues(rest, time))
  {
    hide ParseDump, ChangesTokens;
    var ts := ChangesTokens(es) + (["$end"] + rest);
    ValuesInSection(es, rest, time);
    SectionOpens(command, ts, time);
    hide ParseValues;
    assert [DumpAction(command)] + (es + ParseValues(rest, time).events)
        == [DumpAction(command)] + es + ParseValues(rest, time).events;
  }

  lemma SectionOpens(command: string, ts: seq<string>, time: nat)
    requires command in {"$dumpvars", "$dumpall", "$dumpon", "$dumpoff"}
    ensures ParseValues([command] + ts, time) == Prepend(DumpAction(command), ParseDump(ts, time))
  {
    hide ParseDump;
    assert ([command] + ts)[1..] == ts;
  }

  lemma SectionEnds(rest: seq<string>, time: nat)
    ensures ParseDump(["$end"] + rest, time) == ParseValues(rest, time)
  {
    hide ParseValues;
    assert (["$end"] + rest)[1..] == rest;
  }

  lemma {:induction false} ValuesInSection(es: seq<Event>, rest: seq<string>, time: nat)
    requires AreValues(es, time)
    ensures ParseDump(ChangesTokens(es) + (["$end"] + rest), time) == Later(es, ParseValues(rest, time))
  {
    hide ParseValues, ParseDump, ChangeTokens;
    var end := ["$end"] + rest;
    if es == [] {
      SectionEnds(rest, time);
      assert [] + end == end && [] + ParseValues(rest, time).events == ParseValues(rest, time).events;
    } else {
      assert forall e :: e in es[1..] ==> e in es;
      var more := ChangesTokens(es[1..]) + end;
      ValuesInSection(es[1..], rest, time);
      ValueInSection(es[0], more, time);
      assert ChangesTokens(es) + end == ChangeTokens(es[0]) + more;
      assert es == [es[0]] + es[1..];
    }
  }

  lemma ValueInSection(e: Event, rest: seq<string>, time: nat)
    requires AreValues([e], time)
    ensures ParseDump(ChangeTokens(e) + rest, time) == Prepend(e, ParseDump(rest, time))
  {
    assert e in [e];
    var ts := ChangeTokens(e) + rest;
    if e.isEvent {
      assert ts[0][0] == e.value[0] && "$end"[0] == '$';
      assert ts[0] == e.value + e.identifier && ts[0][1..] == e.identifier && ts[0][..1] == e.value && ts[1..] == rest;
    } else {
      assert ts[0] == "b" + e.value && ts[0][1..] == e.value && ts[1] == e.identifier && ts[2..] == rest;
    }
  }

  /** The same changes are reported outside of a section. */
  lemma {:induction false} ValuesOutside(es: seq<Event>, rest: seq<string>, time: nat)
    requires AreValues(es, time)
    ensures ParseValues(ChangesTokens(es) + rest, time) == Later(es, ParseValues(rest, time))
  {
    hide ParseValues, ChangeTokens;
    if es == [] {
      assert [] + rest == rest;
    } else {
      assert forall e :: e in es[1..] ==> e in es;
      var more := ChangesTokens(es[1..]) + rest;
      ValuesOutside(es[1..], rest, time);
      ValueOutside(es[0], more, time);
      assert ChangesTokens(es) + rest == ChangeTokens(es[0]) + more;
      assert es == [es[0]] + es[1..];
    }
  }

  lemma ValueOutside(e: Event, rest: seq<string>, time: nat)
    requires AreValues([e], time)
    ensures ParseValues(ChangeTokens(e) + rest, time) == Prepend(e, ParseValues(rest, time))
  {
    assert e in [e];
    var ts := ChangeTokens(e) + rest;
    if e.isEvent {
      assert ts[0] == e.value + e.identifier && ts[0][1..] == e.identifier && ts[0][..1] == e.value && ts[1..] == rest;
    } else {
      assert ts[0] == "b" + e.value && ts[0][1..] == e.value && ts[1] == e.identifier && ts[2..] == rest;
    }
  }

  /** In a section everything else is passed over, times included; outside, times are not. */
  lemma OthersInSection(t: string, rest: seq<string>, time: nat)
    requires t != "" && t != "$end" && t[0] !in {'0', '1', 'x', 'z', 'b'}
    ensures ParseDump([t] + rest, time) == ParseDump(rest, time)
  {
    assert ([t] + rest)[1..] == rest;
  }

  /** The four headers by their keywords; each word of the text is reported after a blank. */
  lemma HeaderKeywords(word: string, rest: seq<string>)
    requires word != "$end"
    ensures ParseDefs(["$date", word, "$end"] + rest) == Prepend(MetaInfo(Date, " " + word), ParseDefs(rest))
    ensures ParseDefs(["$version", word, "$end"] + rest) == Prepend(MetaInfo(Version, " " + word), ParseDefs(rest))
    ensures ParseDefs(["$timescale", word, "$end"] + rest) == Prepend(MetaInfo(Timescale, " " + word), ParseDefs(rest))
    ensures ParseDefs(["$comment", word, "$end"] + rest) == Prepend(MetaInfo(Comment, " " + word), ParseDefs(rest))
  {
    hide ParseDefs;
    OneWordHeader("$date", word, rest);
    OneWordHeader("$version", word, rest);
    OneWordHeader("$timescale", word, rest);
    OneWordHeader("$comment", word, rest);
  }

  lemma OneWordHeader(name: string, word: string, rest: seq<string>)
    requires word != "$end" && MetaOf(name).Some?
    ensures ParseDefs([name, word, "$end"] + rest)
      == Prepend(MetaInfo(MetaOf(name).value, " " + word), ParseDefs(rest))
  {
    hide MetaOf;
    var ts := [name, word, "$end"] + rest;
    var end := ["$end"] + rest;
    assert ts[1..] == [word] + end && ([word] + end)[1..] == end && end[1..] == rest;
    assert MetaText(end) == Some(("", rest));
    assert " " + word + "" == " " + word;
    assert MetaText(ts[1..]) == Some((" " + word, rest));
  }
}
