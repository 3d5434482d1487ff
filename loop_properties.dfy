/**
 * What the receive loop of candidate/neighbor_node.py computes, stated
 * without the loop: the table is the accepted beacons of the consumed events
 * stored in arrival order, the anchor is the clock reading at the first
 * accepted beacon, and the loop consumes events up to and including the
 * first one that ends it.
 */
module LoopProperties {
  import opened Wrappers
  import opened Validator
  import opened Table
  import opened Collector

  /** The beacons of the accepted datagrams among `es`, in arrival order. */
  ghost function AcceptedBeacons(es: seq<Event>): seq<Beacon> {
    if es == [] then []
    else
      var e := es[|es| - 1];
      AcceptedBeacons(es[..|es| - 1]) + if IsAccepted(e) then [BeaconOf(e.payload.msg)] else []
  }

  /** The clock reading of the first accepted datagram among `es`, if any. */
  ghost function AnchorOf(es: seq<Event>): Option<int> {
    if es == [] then None
    else
      var a, e := AnchorOf(es[..|es| - 1]), es[|es| - 1];
      if a.Some? then a else if IsAccepted(e) then Some(e.now) else None
  }

  /** The loop state after `es`, provided none of them ended the loop. */
  ghost function StateAfter(es: seq<Event>): LoopState {
    LoopState(Replay(AcceptedBeacons(es)), AnchorOf(es))
  }

  /**
   * Event `j` ends the loop: a timeout, an undecodable datagram, or an
   * accepted beacon that arrives at least `window` after the anchor.
   */
  ghost predicate HaltsAt(trace: seq<Event>, window: int, j: int)
    requires 0 <= j < |trace|
  {
    || trace[j].Timeout?
    || IsUndecodable(trace[j])
    || (IsAccepted(trace[j]) && AnchorOf(trace[..j + 1]).Some? && trace[j].now - AnchorOf(trace[..j + 1]).value >= window)
  }

  ghost predicate NoHaltBefore(trace: seq<Event>, window: int, n: int) {
    forall j :: 0 <= j < n && j < |trace| ==> !HaltsAt(trace, window, j)
  }

  /**
   * `r` is what the loop does on `trace`: it raises exactly at the first
   * halting event if that is undecodable, and otherwise stops right after the
   * first halting event (or at the end of the trace) in the state the
   * consumed events build.
   */
  ghost predicate Conforms(trace: seq<Event>, window: int, r: Outcome) {
    match r
    case Raised(n) =>
      1 <= n <= |trace| && NoHaltBefore(trace, window, n - 1) && IsUndecodable(trace[n - 1])
    case Finished(st, n) =>
      && n <= |trace|
      && st == StateAfter(trace[..n])
      && ((n == |trace| && NoHaltBefore(trace, window, n))
          || (1 <= n && NoHaltBefore(trace, window, n - 1) && HaltsAt(trace, window, n - 1) && !IsUndecodable(trace[n - 1])))
  }

  lemma AcceptedBeaconsSnoc(es: seq<Event>, e: Event)
    ensures AcceptedBeacons(es + [e]) == AcceptedBeacons(es) + if IsAccepted(e) then [BeaconOf(e.payload.msg)] else []
    ensures AnchorOf(es + [e]) == if AnchorOf(es).Some? then AnchorOf(es) else if IsAccepted(e) then Some(e.now) else None
  {
    assert (es + [e])[..|es|] == es;
  }

  lemma ReplaySnoc(bs: seq<Beacon>, b: Beacon)
    ensures Replay(bs + [b]) == Upsert(Replay(bs), b)
  {
    assert (bs + [b])[..|bs|] == bs;
  }

  /** An event that stores nothing leaves the state the consumed events build unchanged. */
  lemma StateAfterIgnored(p: seq<Event>, e: Event)
    requires !IsAccepted(e)
    ensures StateAfter(p + [e]) == StateAfter(p)
  {
    AcceptedBeaconsSnoc(p, e);
    assert AcceptedBeacons(p + [e]) == AcceptedBeacons(p);
  }

  /** An accepted beacon is stored with last-received-wins, and anchors the window if nothing did before. */
  lemma StateAfterAccepted(p: seq<Event>, e: Event)
    requires IsAccepted(e)
    ensures StateAfter(p + [e]).table == Upsert(StateAfter(p).table, BeaconOf(e.payload.msg))
    ensures StateAfter(p + [e]).firstTs == Some(if AnchorOf(p).None? then e.now else AnchorOf(p).value)
  {
    AcceptedBeaconsSnoc(p, e);
    ReplaySnoc(AcceptedBeacons(p), BeaconOf(e.payload.msg));
  }

  /** One step of the loop from the state the consumed events build. */
  lemma StepFromStateAfter(trace: seq<Event>, window: int, i: nat)
    requires i < |trace|
    ensures var r := Step(StateAfter(trace[..i]), trace[i], window);
      && (HaltsAt(trace, window, i) && IsUndecodable(trace[i]) ==> r == Raise)
      && (HaltsAt(trace, window, i) && !IsUndecodable(trace[i]) ==> r == Stop(StateAfter(trace[..i + 1])))
      && (!HaltsAt(trace, window, i) ==> r == Continue(StateAfter(trace[..i + 1])))
  {
    var p, e := trace[..i], trace[i];
    assert trace[..i + 1] == p + [e];
    if IsAccepted(e) {
      StepAccepted(p, e, window);
    } else {
      StepIgnored(p, e, window);
    }
  }

  /** A timeout stops the loop, an undecodable datagram raises, and anything else rejected goes on unchanged. */
  lemma StepIgnored(p: seq<Event>, e: Event, window: int)
    requires !IsAccepted(e)
    ensures Step(StateAfter(p), e, window)
      == if e.Timeout? then Stop(StateAfter(p + [e]))
         else if IsUndecodable(e) then Raise
         else Continue(StateAfter(p + [e]))
  {
    StateAfterIgnored(p, e);
  }

  /** An accepted beacon is stored, and the loop stops when it arrives at least `window` after the anchor. */
  lemma StepAccepted(p: seq<Event>, e: Event, window: int)
    requires IsAccepted(e)
    ensures AnchorOf(p + [e]).Some?
    ensures Step(StateAfter(p), e, window)
      == if e.now - AnchorOf(p + [e]).value >= window then Stop(StateAfter(p + [e])) else Continue(StateAfter(p + [e]))
  {
    StateAfterAccepted(p, e);
    AcceptedStepFrom(StateAfter(p), StateAfter(p + [e]), e, window);
  }

  /** `Step` on an accepted beacon, from any state: store it, anchor if needed, and compare with the window. */
  lemma AcceptedStepFrom(st: LoopState, st': LoopState, e: Event, window: int)
    requires st.table.Valid() && IsAccepted(e)
    requires st'.table == Upsert(st.table, BeaconOf(e.payload.msg))
    requires st'.firstTs == Some(if st.firstTs.None? then e.now else st.firstTs.value)
    ensures Step(st, e, window) == if e.now - st'.firstTs.value >= window then Stop(st') else Continue(st')
  {
  }

  lemma {:induction false} RunAtConforms(trace: seq<Event>, window: int, i: nat)
    requires i <= |trace| && NoHaltBefore(trace, window, i)
    ensures Conforms(trace, window, RunAt(trace, window, i, StateAfter(trace[..i])))
    decreases |trace| - i
  {
    var st := StateAfter(trace[..i]);
    if i == |trace| {
      assert trace[..i] == trace;
      assert RunAt(trace, window, i, st) == Finished(st, i);
    } else {
      StepFromStateAfter(trace, window, i);
      if !HaltsAt(trace, window, i) {
        RunAtConforms(trace, window, i + 1);
        assert RunAt(trace, window, i, st) == RunAt(trace, window, i + 1, StateAfter(trace[..i + 1]));
      } else {
        HaltConforms(trace, window, i);
      }
    }
  }

  /** The event that ends the loop makes it raise or stop as `Conforms` says. */
  lemma HaltConforms(trace: seq<Event>, window: int, i: nat)
    requires i < |trace| && NoHaltBefore(trace, window, i) && HaltsAt(trace, window, i)
    ensures Conforms(trace, window, RunAt(trace, window, i, StateAfter(trace[..i])))
  {
    var st := StateAfter(trace[..i]);
    StepFromStateAfter(trace, window, i);
    if IsUndecodable(trace[i]) {
      assert RunAt(trace, window, i, st) == Raised(i + 1);
    } else {
      assert RunAt(trace, window, i, st) == Finished(StateAfter(trace[..i + 1]), i + 1);
    }
  }

  /** The loop does exactly what `Conforms` describes, on every trace and window. */
  lemma RunConforms(trace: seq<Event>, window: int)
    ensures Conforms(trace, window, Run(trace, window))
  {
    assert trace[..0] == [];
    assert StateAfter(trace[..0]) == Initial;
    RunAtConforms(trace, window, 0);
  }

  /**
   * `first_ts` is the clock reading of the first accepted beacon, and it is
   * `None` exactly when no beacon was accepted.
   */
  lemma {:induction false} AnchorIsFirstAccepted(es: seq<Event>)
    ensures AnchorOf(es).None? <==> forall j :: 0 <= j < |es| ==> !IsAccepted(es[j])
    ensures AnchorOf(es).Some? ==>
      exists j :: && 0 <= j < |es| && IsAccepted(es[j]) && es[j].now == AnchorOf(es).value
                  && forall j' :: 0 <= j' < j ==> !IsAccepted(es[j'])
  {
    if es != [] {
      var p, e := es[..|es| - 1], es[|es| - 1];
      assert es == p + [e];
      AnchorIsFirstAccepted(p);
      if AnchorOf(p).Some? {
        var j :| 0 <= j < |p| && IsAccepted(p[j]) && p[j].now == AnchorOf(p).value
          && forall j' :: 0 <= j' < j ==> !IsAccepted(p[j']);
        assert es[j] == p[j];
        assert forall j' :: 0 <= j' < j ==> es[j'] == p[j'];
      } else {
        assert forall j :: 0 <= j < |p| ==> es[j] == p[j];
      }
    }
  }

  /** A datagram that is not JSON, or is rejected, changes neither the table nor `first_ts`. */
  lemma RejectedChangesNothing(st: LoopState, e: Event, window: int)
    requires st.table.Valid()
    requires e.Datagram? && !IsUndecodable(e) && !IsAccepted(e)
    ensures Step(st, e, window) == Continue(st)
  {
  }

  /** Once `first_ts` is set, no later event moves it. */
  lemma AnchorIsSetOnce(st: LoopState, e: Event, window: int)
    requires st.table.Valid() && st.firstTs.Some?
    ensures !Step(st, e, window).Raise? ==> Step(st, e, window).st.firstTs == st.firstTs
  {
  }

  /**
   * The table after storing `bs`: its keys are their ids, each key holds the
   * last beacon for that id, keys iterate in order of first arrival, and its
   * size is the number of distinct ids.
   */
  lemma ReplayIsLastReceived(bs: seq<Beacon>)
    ensures var t := Replay(bs);
      && t.entries.Keys == Ids(bs)
      && |t.entries| == |t.order| == |Ids(bs)|
      && InsertionOrdered(bs, t.order)
      && (forall j :: 0 <= j < |bs| && (forall j' :: j < j' < |bs| ==> bs[j'].id != bs[j].id) ==>
            bs[j].id in t.entries && t.entries[bs[j].id] == bs[j].rec)
  {
    ReplayKeys(bs);
    ReplayOrder(bs);
    CountIsOrderLength(Replay(bs));
    forall j | 0 <= j < |bs| && (forall j' :: j < j' < |bs| ==> bs[j'].id != bs[j].id)
      ensures bs[j].id in Replay(bs).entries && Replay(bs).entries[bs[j].id] == bs[j].rec
    {
      ReplayLastWins(bs, j);
    }
  }

  /**
   * The table the loop ends with is the accepted beacons it consumed, stored
   * in arrival order (so `ReplayIsLastReceived` describes it).
   */
  lemma FinalTableIsReplay(trace: seq<Event>, window: int)
    ensures var r := Run(trace, window);
      r.Finished? ==> r.st.table == Replay(AcceptedBeacons(trace[..r.consumed]))
  {
    FinalStateIsStateAfter(trace, window);
  }

  /** When the loop ends normally, its state is the one the consumed events build. */
  lemma FinalStateIsStateAfter(trace: seq<Event>, window: int)
    ensures var r := Run(trace, window);
      r.Finished? ==> r.st == StateAfter(trace[..r.consumed])
  {
    RunConforms(trace, window);
  }

  /**
   * The window is anchored on the first accepted beacon: `first_ts` is that
   * beacon's clock reading, and stays `None` (with an empty table) when the
   * loop accepted nothing.
   */
  lemma WindowAnchorsOnFirstAccepted(trace: seq<Event>, window: int)
    ensures var r := Run(trace, window);
      r.Finished? ==>
        && (r.st.firstTs.None? <==> forall j :: 0 <= j < r.consumed ==> !IsAccepted(trace[j]))
        && (r.st.firstTs.None? ==> r.st.table.entries == map[])
        && (r.st.firstTs.Some? ==>
              exists j :: && 0 <= j < r.consumed && IsAccepted(trace[j]) && trace[j].now == r.st.firstTs.value
                          && forall j' :: 0 <= j' < j ==> !IsAccepted(trace[j']))
  {
    FinalStateIsStateAfter(trace, window);
    var r := Run(trace, window);
    if r.Finished? {
      var es := trace[..r.consumed];
      AnchorIsFirstAccepted(es);
      assert forall j :: 0 <= j < r.consumed ==> es[j] == trace[j];
      if r.st.firstTs.None? {
        NoAcceptedNoBeacons(es);
        assert AcceptedBeacons(es) == [];
      }
    }
  }

  lemma {:induction false} NoAcceptedNoBeacons(es: seq<Event>)
    requires forall j :: 0 <= j < |es| ==> !IsAccepted(es[j])
    ensures AcceptedBeacons(es) == []
  {
    if es != [] {
      NoAcceptedNoBeacons(es[..|es| - 1]);
    }
  }

  /**
   * When the loop stops on the window, the beacon that closed it is stored:
   * it is the last one consumed, so its record is in the table.
   */
  lemma WindowClosingBeaconIsStored(trace: seq<Event>, window: int)
    ensures var r := Run(trace, window);
      r.Finished? && r.consumed >= 1 && IsAccepted(trace[r.consumed - 1]) ==>
        var b := BeaconOf(trace[r.consumed - 1].payload.msg);
        b.id in r.st.table.entries && r.st.table.entries[b.id] == b.rec
  {
    FinalTableIsReplay(trace, window);
    var r := Run(trace, window);
    if r.Finished? && r.consumed >= 1 && IsAccepted(trace[r.consumed - 1]) {
      var es := trace[..r.consumed];
      assert es[|es| - 1] == trace[r.consumed - 1];
      LastAcceptedIsStored(es);
    }
  }

  /** The beacon of an accepted last event is in the table the events build. */
  lemma LastAcceptedIsStored(es: seq<Event>)
    requires |es| >= 1 && IsAccepted(es[|es| - 1])
    ensures var b := BeaconOf(es[|es| - 1].payload.msg);
      var t := Replay(AcceptedBeacons(es));
      b.id in t.entries && t.entries[b.id] == b.rec
  {
    var p, b := es[..|es| - 1], BeaconOf(es[|es| - 1].payload.msg);
    assert AcceptedBeacons(es) == AcceptedBeacons(p) + [b];
    ReplaySnoc(AcceptedBeacons(p), b);
    UpsertHolds(Replay(AcceptedBeacons(p)), Replay(AcceptedBeacons(es)), b);
  }

  lemma UpsertHolds(t0: Table, t: Table, b: Beacon)
    requires t0.Valid() && t == Upsert(t0, b)
    ensures b.id in t.entries && t.entries[b.id] == b.rec
  {
  }
}
