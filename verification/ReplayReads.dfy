/** What clients of the replay engine read, in terms of what was recorded. */
module ReplayReads {
  import opened Common
  import opened PackedValues
  import PackedArrays
  import opened ReplayEngine

  /** Bits below 2^31 read as the number they stand for; nothing recorded reads as 0. */
  lemma BitsRead(raw: string)
    requires IsBits(raw) && Value(raw) < Pow2(31)
    ensures IntOf(Some(raw)) == Some(Value(raw)) && IntOf(None) == Some(0)
  {
    hide Value, Pow2, Converted;
    ConvertExactly(raw);
    assert Pow2(31) == 0x8000_0000 by { Pow2Of31(); }
  }

  lemma Pow2Of31()
    ensures Pow2(31) == 0x8000_0000
  {
    assert Pow2(10) == 0x400;
    assert Pow2(20) == 0x10_0000;
  }

  /** An element of an array reads as its bits of the number recorded for the bus, or as 0. */
  lemma ElementReads(raw: string, bits: Span)
    requires IsBits(raw) && bits.lo < bits.hi
    requires Value(raw) / Pow2(bits.lo) % Pow2(bits.hi - bits.lo) < Pow2(31)
    ensures ElementInt(Some(raw), bits) == Some(Value(raw) / Pow2(bits.lo) % Pow2(bits.hi - bits.lo))
    ensures ElementInt(None, bits) == Some(0)
  {
    hide Value, Pow2, Converted;
    PackedArrays.ExtractDenotes(raw, bits);
    match PackedArrays.Extract(raw, bits) {
      case None =>
      case Some(slice) => BitsRead(slice);
    }
  }

  /** c is recorded for the signal of the handle, or for the bus of an element. */
  ghost predicate Records(vpi: ReplayVpi, h: Handle, c: Changes) {
    if h in vpi.signalIds then vpi.signalIds[h] in vpi.wave && c == vpi.wave[vpi.signalIds[h]]
    else h in vpi.elements && vpi.elements[h].bus in vpi.wave && c == vpi.wave[vpi.elements[h].bus]
  }

  /** The integer a handle shows of a recorded value. */
  function Shown(vpi: ReplayVpi, h: Handle, raw: Option<string>): Option<int> {
    if h in vpi.signalIds || h !in vpi.elements then IntOf(raw) else ElementInt(raw, vpi.elements[h].bits)
  }

  ghost predicate IsLatestBefore(c: Changes, t: nat, time: nat) {
    t in c && t < time && forall u :: u in c && u < time ==> u <= t
  }

  lemma OneTickEarlier(c: Changes, time: nat)
    requires time > 0
    ensures forall t :: IsLatestBefore(c, t, time) ==> IsLatest(c, t, time - 1)
  {
  }

  /** Inside a callback at a visited time, a handle that has fired shows the value recorded at that
      time if its signal changed then, and any other handle that of the latest change before. */
  lemma ClientReads(engine: EmulationEngine, o: Observation, h: Handle, c: Changes)
    requires engine.Faithful(o) && h in o.before.seen && Records(engine.vpi, h, c)
    ensures h in o.fired && o.time in c ==> o.before.seen[h] == Shown(engine.vpi, h, Some(c[o.time]))
    ensures forall t :: h !in o.fired && IsLatestBefore(c, t, o.time) ==>
      o.before.seen[h] == Shown(engine.vpi, h, Some(c[t]))
    ensures h !in o.fired && (forall t :: t in c ==> t >= o.time) ==>
      o.before.seen[h] == Shown(engine.vpi, h, None)
  {
    hide ElementInt, IntOf, ValueAt;
    OneTickEarlier(c, o.time);
    assert o.time in c ==> IsLatest(c, o.time, o.time);
  }

  /** And after going back to a point, every handle that has not fired shows what it had at the latest
      change before the point, while those that have fired keep showing the visited time. */
  lemma ClientReadsBack(engine: EmulationEngine, o: Observation, h: Handle, c: Changes)
    requires engine.Faithful(o) && o.back.Some? && o.back.value.point > 0
    requires h in o.back.value.view.seen && Records(engine.vpi, h, c)
    ensures var view := o.back.value.view; var point := o.back.value.point;
      && (h in o.fired && o.time in c ==> view.seen[h] == Shown(engine.vpi, h, Some(c[o.time])))
      && (forall t :: h !in o.fired && IsLatestBefore(c, t, point) ==>
            view.seen[h] == Shown(engine.vpi, h, Some(c[t])))
      && (h !in o.fired && (forall t :: t in c ==> t >= point) ==> view.seen[h] == Shown(engine.vpi, h, None))
  {
    hide ElementInt, IntOf, ValueAt;
    OneTickEarlier(c, o.back.value.point);
    assert o.time in c ==> IsLatest(c, o.time, o.time);
  }
}
