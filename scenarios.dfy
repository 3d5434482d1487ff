/**
 * Concrete runs of the collector model on small traces; each states what the
 * program does on that input. The runs are unfolded by the small generic
 * lemmas at the top, one event at a time.
 */
module Scenarios {
  import opened Wrappers
  import opened Json
  import opened Validator
  import opened Table
  import opened Distance
  import opened Collector

  const Window: int := 1000

  /** `{"id": id, "pos": pos, "speed": speed, "ts": ts}` as `json.loads` returns it. */
  function BeaconMsg(id: string, pos: Value, speed: Value, ts: Value): Value {
    Object(map["id" := Str(id), "pos" := pos, "speed" := speed, "ts" := ts])
  }

  function Pair(x: int, y: int): Value {
    Array([Int(x), Int(y)])
  }

  /** A datagram carrying a beacon with integer speed and timestamp. */
  function Beaconed(now: int, id: string, pos: Value, speed: int, ts: int): Event {
    Datagram(now, Decoded(BeaconMsg(id, pos, Int(speed), Int(ts))))
  }

  /** An accepted message is stored and anchors the window if nothing did before. */
  lemma AcceptedStepOf(st: LoopState, now: int, msg: Value, b: Beacon)
    requires st.table.Valid() && Acceptable(msg) && BeaconOf(msg) == b
    ensures var anchor := if st.firstTs.None? then now else st.firstTs.value;
      var st' := LoopState(Upsert(st.table, b), Some(anchor));
      Step(st, Datagram(now, Decoded(msg)), Window) == if now - anchor >= Window then Stop(st') else Continue(st')
  {
  }

  /** One well-formed beacon with integer speed and timestamp, as `Step` handles it. */
  lemma AcceptedStep(st: LoopState, now: int, id: string, pos: Value, speed: int, ts: int)
    requires st.table.Valid() && pos.Array?
    ensures var anchor := if st.firstTs.None? then now else st.firstTs.value;
      var st' := LoopState(Upsert(st.table, Beacon(id, Record(pos, speed as real, ts))), Some(anchor));
      Step(st, Beaconed(now, id, pos, speed, ts), Window) == if now - anchor >= Window then Stop(st') else Continue(st')
  {
    var msg := BeaconMsg(id, pos, Int(speed), Int(ts));
    assert Acceptable(msg);
    AcceptedStepOf(st, now, msg, Beacon(id, Record(pos, speed as real, ts)));
  }

  /** Unfolding the loop by one event that lets it go on. */
  lemma RunAtContinues(trace: seq<Event>, i: nat, st: LoopState, st': LoopState)
    requires i < |trace| && st.table.Valid() && Step(st, trace[i], Window) == Continue(st')
    ensures RunAt(trace, Window, i, st) == RunAt(trace, Window, i + 1, st')
  {
  }

  /** Unfolding the loop by the event that ends it. */
  lemma RunAtStops(trace: seq<Event>, i: nat, st: LoopState, st': LoopState)
    requires i < |trace| && st.table.Valid() && Step(st, trace[i], Window) == Stop(st')
    ensures RunAt(trace, Window, i, st) == Finished(st', i + 1)
  {
  }

  lemma OneContinue(tr: seq<Event>, s1: LoopState)
    requires |tr| == 1 && Step(Initial, tr[0], Window) == Continue(s1)
    ensures Run(tr, Window) == Finished(s1, 1)
  {
    RunAtContinues(tr, 0, Initial, s1);
  }

  lemma TwoContinue(tr: seq<Event>, s1: LoopState, s2: LoopState)
    requires |tr| == 2 && s1.table.Valid()
    requires Step(Initial, tr[0], Window) == Continue(s1) && Step(s1, tr[1], Window) == Continue(s2)
    ensures Run(tr, Window) == Finished(s2, 2)
  {
    RunAtContinues(tr, 0, Initial, s1);
    RunAtContinues(tr, 1, s1, s2);
  }

  lemma ContinueThenStop(tr: seq<Event>, s1: LoopState, s2: LoopState)
    requires |tr| == 2 && s1.table.Valid()
    requires Step(Initial, tr[0], Window) == Continue(s1) && Step(s1, tr[1], Window) == Stop(s2)
    ensures Run(tr, Window) == Finished(s2, 2)
  {
    RunAtContinues(tr, 0, Initial, s1);
    RunAtStops(tr, 1, s1, s2);
  }

  lemma ContinueThenRaise(tr: seq<Event>, s1: LoopState)
    requires |tr| == 3 && s1.table.Valid()
    requires Step(Initial, tr[0], Window) == Continue(s1) && Step(s1, tr[1], Window) == Raise
    ensures Run(tr, Window) == Raised(2)
  {
    RunAtContinues(tr, 0, Initial, s1);
  }

  lemma ThreeContinue(tr: seq<Event>, s1: LoopState, s2: LoopState, s3: LoopState)
    requires |tr| == 3 && s1.table.Valid() && s2.table.Valid()
    requires Step(Initial, tr[0], Window) == Continue(s1) && Step(s1, tr[1], Window) == Continue(s2)
    requires Step(s2, tr[2], Window) == Continue(s3)
    ensures Run(tr, Window) == Finished(s3, 3)
  {
    RunAtContinues(tr, 0, Initial, s1);
    RunAtContinues(tr, 1, s1, s2);
    RunAtContinues(tr, 2, s2, s3);
  }

  lemma ThirdStops(tr: seq<Event>, s1: LoopState, s2: LoopState, s3: LoopState)
    requires |tr| == 4 && s1.table.Valid() && s2.table.Valid()
    requires Step(Initial, tr[0], Window) == Continue(s1) && Step(s1, tr[1], Window) == Continue(s2)
    requires Step(s2, tr[2], Window) == Stop(s3)
    ensures Run(tr, Window) == Finished(s3, 3)
  {
    RunAtContinues(tr, 0, Initial, s1);
    RunAtContinues(tr, 1, s1, s2);
    RunAtStops(tr, 2, s2, s3);
  }

  lemma ThreeIgnoredThenContinue(tr: seq<Event>, s4: LoopState)
    requires |tr| == 4
    requires Step(Initial, tr[0], Window) == Continue(Initial) && Step(Initial, tr[1], Window) == Continue(Initial)
    requires Step(Initial, tr[2], Window) == Continue(Initial) && Step(Initial, tr[3], Window) == Continue(s4)
    ensures Run(tr, Window) == Finished(s4, 4)
  {
    RunAtContinues(tr, 0, Initial, Initial);
    RunAtContinues(tr, 1, Initial, Initial);
    RunAtContinues(tr, 2, Initial, Initial);
    RunAtContinues(tr, 3, Initial, s4);
  }

  /** A table with one entry whose position is a pair at squared distance `d`. */
  lemma SingleEntryNearest(id: string, rec: Record, d: real)
    requires SquaredDistance(rec.pos) == Some(d)
    ensures var t := Table([id], map[id := rec]);
      Upsert(Empty, Beacon(id, rec)) == t && t.Valid() && IsNearestAnswer(t, Some(Nearest(id, d)))
  {
    var t := Table([id], map[id := rec]);
    assert t.Valid();
    assert DistAt(t, 0) == Some(d);
    assert IsFirstMinimumAmong(t, 0, 1);
    assert !forall k :: 0 <= k < |t.order| ==> DistAt(t, k).None?;
    assert Some(Nearest(id, d)).value == Nearest(t.order[0], DistAt(t, 0).value);
  }

  /** Two beacons with distinct ids make a two-entry table in arrival order. */
  lemma TwoDistinct(a: Record, b: Record, x: string, y: string)
    requires x != y
    ensures Upsert(Upsert(Empty, Beacon(x, a)), Beacon(y, b)) == Table([x, y], map[x := a, y := b])
  {
    assert Upsert(Empty, Beacon(x, a)) == Table([x], map[x := a]);
  }

  /** Three beacons with distinct ids make a three-entry table in arrival order. */
  lemma ThreeDistinct(a: Record, b: Record, c: Record, x: string, y: string, z: string)
    requires x != y && y != z && x != z
    ensures Upsert(Upsert(Upsert(Empty, Beacon(x, a)), Beacon(y, b)), Beacon(z, c))
      == Table([x, y, z], map[x := a, y := b, z := c])
  {
    var t1 := Upsert(Empty, Beacon(x, a));
    assert t1 == Table([x], map[x := a]);
    assert Upsert(t1, Beacon(y, b)) == Table([x, y], map[x := a, y := b]);
  }

  /** One beacon at (3, 4), then nothing: one neighbor, nearest at squared distance 25. */
  lemma OneBeaconThenTimeout(tr: seq<Event>)
    requires tr == [Beaconed(1000, "veh_1", Pair(3, 4), 10, 1000), Timeout]
    ensures var r := Run(tr, Window);
      && r == Finished(LoopState(Table(["veh_1"], map["veh_1" := Record(Pair(3, 4), 10.0, 1000)]), Some(1000)), 2)
      && IsNearestAnswer(r.st.table, Some(Nearest("veh_1", 25.0)))
  {
    var rec := Record(Pair(3, 4), 10.0, 1000);
    var s1 := LoopState(Upsert(Empty, Beacon("veh_1", rec)), Some(1000));
    AcceptedStep(Initial, 1000, "veh_1", Pair(3, 4), 10, 1000);
    ContinueThenStop(tr, s1, s1);
    SingleEntryNearest("veh_1", rec, 25.0);
  }

  /** Nothing arrives: the loop ends on the timeout with an empty table and no anchor. */
  lemma NoBeaconTimesOut()
    ensures Run([Timeout], Window) == Finished(Initial, 1)
    ensures Run([], Window) == Finished(Initial, 0)
    ensures IsNearestAnswer(Initial.table, None)
  {
  }

  /** Squared distances 25, 9, 9 inserted as A, B, C: B wins the tie because it comes first. */
  lemma TieGoesToFirstInserted(tr: seq<Event>)
    requires |tr| == 3
    requires tr[0] == Beaconed(0, "A", Pair(3, 4), 1, 0) && tr[1] == Beaconed(1, "B", Pair(3, 0), 1, 1)
    requires tr[2] == Beaconed(2, "C", Pair(0, 3), 1, 2)
    ensures var r := Run(tr, Window);
      && r.Finished? && r.st.table.order == ["A", "B", "C"]
      && IsNearestAnswer(r.st.table, Some(Nearest("B", 9.0)))
  {
    var a, b, c := Record(Pair(3, 4), 1.0, 0), Record(Pair(3, 0), 1.0, 1), Record(Pair(0, 3), 1.0, 2);
    var s1 := LoopState(Upsert(Empty, Beacon("A", a)), Some(0));
    var s2 := LoopState(Upsert(s1.table, Beacon("B", b)), Some(0));
    var s3 := LoopState(Upsert(s2.table, Beacon("C", c)), Some(0));
    AcceptedStep(Initial, 0, "A", Pair(3, 4), 1, 0);
    AcceptedStep(s1, 1, "B", Pair(3, 0), 1, 1);
    AcceptedStep(s2, 2, "C", Pair(0, 3), 1, 2);
    ThreeContinue(tr, s1, s2, s3);
    ThreeDistinct(a, b, c, "A", "B", "C");
    TieTableNearest(a, b, c, "A", "B", "C");
  }

  /** Squared distances 25, 9, 9 in iteration order: the second entry is the first minimum. */
  lemma TieTableNearest(a: Record, b: Record, c: Record, x: string, y: string, z: string)
    requires x != y && y != z && x != z
    requires a.pos == Pair(3, 4) && b.pos == Pair(3, 0) && c.pos == Pair(0, 3)
    ensures var t := Table([x, y, z], map[x := a, y := b, z := c]);
      t.Valid() && IsNearestAnswer(t, Some(Nearest(y, 9.0)))
  {
    var t := Table([x, y, z], map[x := a, y := b, z := c]);
    assert DistAt(t, 0) == Some(25.0) && DistAt(t, 1) == Some(9.0) && DistAt(t, 2) == Some(9.0);
    assert IsFirstMinimumAmong(t, 1, 3);
  }

  /** A second beacon for the same id with an older `ts` still overwrites the first. */
  lemma OlderBeaconStillOverwrites(tr: seq<Event>)
    requires tr == [Beaconed(0, "veh_1", Pair(1, 1), 1, 2000), Beaconed(10, "veh_1", Pair(5, 5), 2, 1000)]
    ensures Run(tr, Window)
      == Finished(LoopState(Table(["veh_1"], map["veh_1" := Record(Pair(5, 5), 2.0, 1000)]), Some(0)), 2)
  {
    var a, b := Record(Pair(1, 1), 1.0, 2000), Record(Pair(5, 5), 2.0, 1000);
    var s1 := LoopState(Upsert(Empty, Beacon("veh_1", a)), Some(0));
    var s2 := LoopState(Upsert(s1.table, Beacon("veh_1", b)), Some(0));
    AcceptedStep(Initial, 0, "veh_1", Pair(1, 1), 1, 2000);
    AcceptedStep(s1, 10, "veh_1", Pair(5, 5), 2, 1000);
    TwoContinue(tr, s1, s2);
    SameIdTwice(a, b, "veh_1");
  }

  /** Two beacons with the same id leave one entry holding the second record. */
  lemma SameIdTwice(a: Record, b: Record, x: string)
    ensures Upsert(Upsert(Empty, Beacon(x, a)), Beacon(x, b)) == Table([x], map[x := b])
  {
    assert Upsert(Empty, Beacon(x, a)) == Table([x], map[x := a]);
  }

  const FloatSpeedMsg: Value := BeaconMsg("veh_1", Pair(3, 4), Float(1.5), Int(7))

  /** Malformed datagrams before the first valid beacon neither crash the loop nor anchor the window. */
  lemma MalformedThenValid(tr: seq<Event>)
    requires |tr| == 4
    requires tr[0] == Datagram(0, BadJson) && tr[1] == Datagram(5, Decoded(Array([])))
    requires tr[2] == Datagram(7, Decoded(Object(map["id" := Str("veh_2")]))) && tr[3] == Datagram(40, Decoded(FloatSpeedMsg))
    ensures Run(tr, Window)
      == Finished(LoopState(Table(["veh_1"], map["veh_1" := Record(Pair(3, 4), 1.5, 7)]), Some(40)), 4)
  {
    MalformedStepsIgnored();
    FloatSpeedStep();
    ThreeIgnoredThenContinue(tr, LoopState(Table(["veh_1"], map["veh_1" := Record(Pair(3, 4), 1.5, 7)]), Some(40)));
  }

  /** Bad JSON, a non-object and an object without the other keys each leave the loop state alone. */
  lemma MalformedStepsIgnored()
    ensures Step(Initial, Datagram(0, BadJson), Window) == Continue(Initial)
    ensures Step(Initial, Datagram(5, Decoded(Array([]))), Window) == Continue(Initial)
    ensures Step(Initial, Datagram(7, Decoded(Object(map["id" := Str("veh_2")]))), Window) == Continue(Initial)
  {
    assert !Acceptable(Object(map["id" := Str("veh_2")]));
  }

  /** The beacon with a float speed is the first one accepted: it is stored and anchors the window. */
  lemma FloatSpeedStep()
    ensures Step(Initial, Datagram(40, Decoded(FloatSpeedMsg)), Window)
      == Continue(LoopState(Table(["veh_1"], map["veh_1" := Record(Pair(3, 4), 1.5, 7)]), Some(40)))
  {
    var rec := Record(Pair(3, 4), 1.5, 7);
    FloatSpeedAccepted();
    AcceptedStepOf(Initial, 40, FloatSpeedMsg, Beacon("veh_1", rec));
    SingleEntryNearest("veh_1", rec, 25.0);
  }

  /** A float speed is accepted and stored as it is. */
  lemma FloatSpeedAccepted()
    ensures Acceptable(FloatSpeedMsg) && BeaconOf(FloatSpeedMsg) == Beacon("veh_1", Record(Pair(3, 4), 1.5, 7))
  {
  }

  /**
   * A `pos` with three elements, or with a string coordinate, is stored and
   * counted (only `list` is checked), but never chosen as nearest.
   */
  lemma MalformedPositionIsStoredNotNearest(tr: seq<Event>)
    requires |tr| == 2
    requires tr[0] == Datagram(0, Decoded(BeaconMsg("three", Array([Int(1), Int(2), Int(3)]), Int(0), Int(0))))
    requires tr[1] == Datagram(1, Decoded(BeaconMsg("text", Array([Str("1"), Int(2)]), Int(0), Int(0))))
    ensures var r := Run(tr, Window);
      && r.Finished? && r.st.table.order == ["three", "text"] && |r.st.table.entries| == 2
      && IsNearestAnswer(r.st.table, None)
  {
    TwoUnplaceableStored(tr, "three", "text", Array([Int(1), Int(2), Int(3)]), Array([Str("1"), Int(2)]));
  }

  /** Two beacons whose positions are lists but not coordinate pairs are both stored, and neither is nearest. */
  lemma TwoUnplaceableStored(tr: seq<Event>, x: string, y: string, pa: Value, pb: Value)
    requires x != y && pa.Array? && pb.Array? && SquaredDistance(pa).None? && SquaredDistance(pb).None?
    requires |tr| == 2
    requires tr[0] == Datagram(0, Decoded(BeaconMsg(x, pa, Int(0), Int(0))))
    requires tr[1] == Datagram(1, Decoded(BeaconMsg(y, pb, Int(0), Int(0))))
    ensures var r := Run(tr, Window);
      && r.Finished? && r.st.table.order == [x, y] && |r.st.table.entries| == 2
      && IsNearestAnswer(r.st.table, None)
  {
    var a, b := Record(pa, 0.0, 0), Record(pb, 0.0, 0);
    var s1 := LoopState(Upsert(Empty, Beacon(x, a)), Some(0));
    var s2 := LoopState(Upsert(s1.table, Beacon(y, b)), Some(0));
    AcceptedStep(Initial, 0, x, pa, 0, 0);
    AcceptedStep(s1, 1, y, pb, 0, 0);
    TwoContinue(tr, s1, s2);
    TwoDistinct(a, b, x, y);
    NoPairNoNearest(a, b, x, y);
  }

  /** A table whose two positions are not coordinate pairs has no nearest neighbor. */
  lemma NoPairNoNearest(a: Record, b: Record, x: string, y: string)
    requires x != y && SquaredDistance(a.pos).None? && SquaredDistance(b.pos).None?
    ensures var t := Table([x, y], map[x := a, y := b]);
      t.Valid() && |t.entries| == 2 && IsNearestAnswer(t, None)
  {
    var t := Table([x, y], map[x := a, y := b]);
    assert DistAt(t, 0) == None && DistAt(t, 1) == None;
  }

  const BooleanMsg: Value := BeaconMsg("b", Array([Bool(true), Bool(false)]), Bool(true), Bool(false))

  /** Booleans pass as numbers: `speed` true is 1.0, `ts` false is 0, and `pos` [true, false] is at distance 1. */
  lemma BooleansPassAsNumbers(tr: seq<Event>)
    requires tr == [Datagram(0, Decoded(BooleanMsg))]
    ensures var r := Run(tr, Window);
      && r == Finished(LoopState(Table(["b"], map["b" := Record(Array([Bool(true), Bool(false)]), 1.0, 0)]), Some(0)), 1)
      && IsNearestAnswer(r.st.table, Some(Nearest("b", 1.0)))
  {
    var rec := Record(Array([Bool(true), Bool(false)]), 1.0, 0);
    BooleansAccepted();
    AcceptedStepOf(Initial, 0, BooleanMsg, Beacon("b", rec));
    SingleEntryNearest("b", rec, 1.0);
    OneContinue(tr, LoopState(Table(["b"], map["b" := rec]), Some(0)));
  }

  /** `true` and `false` pass the `int` and `(int, float)` tests and convert to 1 and 0. */
  lemma BooleansAccepted()
    ensures Acceptable(BooleanMsg) && BeaconOf(BooleanMsg) == Beacon("b", Record(Array([Bool(true), Bool(false)]), 1.0, 0))
  {
  }

  /** A datagram that is not UTF-8 ends the run with an exception, and nothing after it is received. */
  lemma NonUtf8DatagramRaises(tr: seq<Event>)
    requires tr == [Beaconed(0, "veh_1", Pair(3, 4), 10, 1000), Datagram(1, BadUtf8), Beaconed(2, "veh_2", Pair(1, 1), 10, 1000)]
    ensures Run(tr, Window) == Raised(2)
  {
    var s1 := LoopState(Upsert(Empty, Beacon("veh_1", Record(Pair(3, 4), 10.0, 1000))), Some(0));
    AcceptedStep(Initial, 0, "veh_1", Pair(3, 4), 10, 1000);
    ContinueThenRaise(tr, s1);
  }

  /** JSON nested beyond the decoder's recursion limit ends the run with an exception too. */
  lemma DeeplyNestedDatagramRaises(tr: seq<Event>)
    requires tr == [Beaconed(0, "veh_1", Pair(3, 4), 10, 1000), Datagram(1, TooDeep), Beaconed(2, "veh_2", Pair(1, 1), 10, 1000)]
    ensures Run(tr, Window) == Raised(2)
  {
    var s1 := LoopState(Upsert(Empty, Beacon("veh_1", Record(Pair(3, 4), 10.0, 1000))), Some(0));
    AcceptedStep(Initial, 0, "veh_1", Pair(3, 4), 10, 1000);
    ContinueThenRaise(tr, s1);
  }

  /**
   * With the window anchored at 0, the beacon at 999 is stored and the loop
   * goes on, the beacon at 1000 is stored and ends it, and the one at 1001 is
   * never received.
   */
  lemma WindowEndsOnFirstLateBeacon(tr: seq<Event>)
    requires |tr| == 4
    requires tr[0] == Beaconed(0, "A", Pair(1, 0), 0, 0) && tr[1] == Beaconed(999, "B", Pair(2, 0), 0, 0)
    requires tr[2] == Beaconed(1000, "C", Pair(3, 0), 0, 0) && tr[3] == Beaconed(1001, "D", Pair(0, 0), 0, 0)
    ensures var r := Run(tr, Window);
      && r.Finished? && r.consumed == 3 && r.st.firstTs == Some(0)
      && r.st.table.order == ["A", "B", "C"]
  {
    var a, b, c := Record(Pair(1, 0), 0.0, 0), Record(Pair(2, 0), 0.0, 0), Record(Pair(3, 0), 0.0, 0);
    var s1 := LoopState(Upsert(Empty, Beacon("A", a)), Some(0));
    var s2 := LoopState(Upsert(s1.table, Beacon("B", b)), Some(0));
    var s3 := LoopState(Upsert(s2.table, Beacon("C", c)), Some(0));
    AcceptedStep(Initial, 0, "A", Pair(1, 0), 0, 0);
    AcceptedStep(s1, 999, "B", Pair(2, 0), 0, 0);
    AcceptedStep(s2, 1000, "C", Pair(3, 0), 0, 0);
    ThirdStops(tr, s1, s2, s3);
    ThreeDistinct(a, b, c, "A", "B", "C");
  }
}
